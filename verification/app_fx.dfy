/** AppFx.parseAmount: the text of an amount field turned into a positive
    amount of cents, or null. */
module AppFx {
  import opened Wrappers
  import JavaText
  import opened DecimalText

  /** `\d+`: one or more ASCII digits. */
  predicate WholeForm(v: string) {
    |v| > 0 && AllDigits(v)
  }

  /** `\d+\.\d{f}` for a fraction of `f` digits. */
  predicate FracForm(v: string, f: int) {
    && 1 <= f <= 2
    && |v| >= f + 2
    && v[|v| - f - 1] == '.'
    && AllDigits(v[..|v| - f - 1])
    && AllDigits(v[|v| - f..])
  }

  /** The whole-string match of `\d+(\.\d{1,2})?`. */
  predicate AmountSyntax(v: string) {
    WholeForm(v) || FracForm(v, 1) || FracForm(v, 2)
  }

  /** The amount a matching string denotes, in cents; with at most two
      fraction digits `setScale(2, DOWN)` drops nothing. */
  function Cents(v: string): (c: nat)
    requires AmountSyntax(v)
  {
    if WholeForm(v) then 100 * Value(v)
    else if FracForm(v, 1) then 100 * Value(v[..|v| - 2]) + 10 * Value(v[|v| - 1..])
    else 100 * Value(v[..|v| - 3]) + Value(v[|v| - 2..])
  }

  /** parseAmount: null for null text, for trimmed text that does not match
      the amount pattern, and for a zero amount. */
  function ParseAmount(s: Option<string>): (r: Option<int>)
    ensures s.None? ==> r.None?
    ensures r.Some? <==>
      s.Some? && AmountSyntax(JavaText.Trim(s.value)) && Cents(JavaText.Trim(s.value)) > 0
    ensures r.Some? ==> r.value > 0 && r.value == Cents(JavaText.Trim(s.value))
  {
    match s
    case None => None
    case Some(t) =>
      var v := JavaText.Trim(t);
      if !AmountSyntax(v) then None
      else
        var c := Cents(v);
        if c > 0 then Some(c) else None
  }

  /** Surrounding blanks are ignored. */
  lemma ParseIgnoresSurroundingBlanks(s: string)
    ensures ParseAmount(Some(s)) == ParseAmount(Some(JavaText.Trim(s)))
  {
    JavaText.TrimIdempotent(s);
  }

  /** Every positive amount reads back from its two-decimal rendering. */
  lemma ParseFixed2(c: nat)
    requires c > 0
    ensures ParseAmount(Some(Fixed2(c))) == Some(c)
  {
    var r := Fixed2(c);
    assert r[..|r| - 3][0] == r[0];
    assert IsDigit(r[0]) && IsDigit(r[|r| - 1]);
    JavaText.TrimClean(r);
    assert !WholeForm(r) by {
      assert !IsDigit(r[|r| - 3]);
    }
    assert !FracForm(r, 1) by {
      assert r[|r| - 2..][0] == r[|r| - 2];
    }
    assert FracForm(r, 2);
  }

  /** A whole number of units reads as that many hundreds of cents. */
  lemma {:induction false} ParseWhole(n: nat)
    requires n > 0
    ensures ParseAmount(Some(Digits(n))) == Some(100 * n)
  {
    var r := Digits(n);
    JavaText.TrimClean(r);
    ValueOfDigits(n);
  }

  /** On text without surrounding blanks parseAmount is the pattern test
      and the positivity test alone. */
  lemma ParseTrimmed(v: string)
    requires JavaText.IsTrimmed(v)
    ensures ParseAmount(Some(v)) == if AmountSyntax(v) && Cents(v) > 0 then Some(Cents(v)) else None
  {
    JavaText.TrimClean(v);
  }

  /** A one-digit fraction counts tenths: "12.5" is 12.50. */
  lemma OneDecimalExample()
    ensures ParseAmount(Some("12.5")) == Some(1250)
  {
    var v := "12.5";
    assert AmountSyntax(v) && Cents(v) == 1250 by {
      assert !WholeForm(v) by {
        assert !IsDigit(v[2]);
      }
      assert v[..2] == "12" && v[3..] == "5";
      assert FracForm(v, 1);
      assert Value("5") == 5 by {
        assert "5"[..0] == [];
      }
      assert Value("12") == 12 by {
        assert "12"[..1] == "1" && "1"[..0] == [];
        assert Value("1") == 1;
      }
    }
    ParseTrimmed(v);
  }

  /** A zero amount matches the pattern and is still refused. */
  lemma ZeroRefused()
    ensures ParseAmount(Some("0.00")) == None
  {
    var v := "0.00";
    assert AmountSyntax(v) && Cents(v) == 0 by {
      assert !WholeForm(v) by {
        assert !IsDigit(v[1]);
      }
      assert !FracForm(v, 1) by {
        assert v[2] != '.';
      }
      assert v[..1] == "0" && v[2..] == "00";
      assert "0"[..0] == [] && "00"[..1] == "0";
      assert Value("0") == 0 && Value("00") == 0;
    }
    ParseTrimmed(v);
  }

  /** A third fraction digit does not match. */
  lemma ThreeDecimalsRefused()
    ensures ParseAmount(Some("1.005")) == None
  {
    var v := "1.005";
    assert !AmountSyntax(v) by {
      assert !IsDigit(v[1]) && v[2] != '.' && v[3] != '.';
    }
    ParseTrimmed(v);
  }

  /** A sign does not match. */
  lemma SignRefused()
    ensures ParseAmount(Some("-5")) == None
  {
    var v := "-5";
    assert !AmountSyntax(v) by {
      assert !IsDigit(v[0]) && v[0] != '.';
    }
    ParseTrimmed(v);
  }
}
