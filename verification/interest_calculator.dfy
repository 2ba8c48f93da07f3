/** InterestCalculator: the fixed term → annual-rate table and the
    simple-interest maturity amount of a term deposit.
    Amounts are in cents, rates in per-mille (the source's rates carry three
    fraction digits), years at the source's four-digit scale. */
module InterestCalculator {
  import opened Wrappers
  import opened Money
  import DecimalText

  /** The two IllegalArgumentExceptions the calculator throws. */
  datatype CalcError = PrincipalNotPositive | InvalidTerm

  predicate SupportedTerm(months: int) {
    months == 3 || months == 6 || months == 12 || months == 24 || months == 36
  }

  /** getAnnualRate: the annual rate in per-mille, or InvalidTerm for any
      other term. */
  function AnnualRate(months: int): (r: Result<nat, CalcError>)
    ensures r.Success? <==> SupportedTerm(months)
    ensures r.Failure? ==> r.error == InvalidTerm
    ensures r.Success? ==> 15 <= r.value <= 35
  {
    if months == 3 then Success(15)
    else if months == 6 then Success(20)
    else if months == 12 then Success(25)
    else if months == 24 then Success(30)
    else if months == 36 then Success(35)
    else Failure(InvalidTerm)
  }

  /** Longer terms earn strictly higher rates. */
  lemma RateIncreasesWithTerm(m1: int, m2: int)
    requires SupportedTerm(m1) && SupportedTerm(m2) && m1 < m2
    ensures AnnualRate(m1).value < AnnualRate(m2).value
  {
  }

  /** months / 12 rounded HALF_UP to four fraction digits, in 1/10000 years. */
  function YearsScale4(months: int): int {
    HalfUpDiv(months * 10000, 12)
  }

  /** For every supported term the four-digit year count is exact. */
  lemma YearsExact(months: int)
    requires SupportedTerm(months)
    ensures 12 * YearsScale4(months) == months * 10000
  {
    HalfUpExact(months * 10000 / 12, 12);
  }

  /** calculate: principal + principal × rate × years, the sum rounded
      HALF_UP to cents (scale 2 + 3 + 4 = 9 fraction digits before rounding).
      The result equals the exactly computed simple interest rounded once:
      the intermediate four-digit year count loses nothing. */
  function Calculate(principal: int, months: int): (r: Result<int, CalcError>)
    ensures principal <= 0 ==> r == Failure(PrincipalNotPositive)
    ensures principal > 0 && !SupportedTerm(months) ==> r == Failure(InvalidTerm)
    ensures r.Success? <==> principal > 0 && SupportedTerm(months)
    ensures r.Success? ==> principal <= r.value
    ensures r.Success? ==>
      r.value == principal + HalfUpDiv(principal * AnnualRate(months).value * months, 12000)
  {
    if principal <= 0 then Failure(PrincipalNotPositive)
    else
      match AnnualRate(months)
      case Failure(e) => Failure(e)
      case Success(rate) =>
        var years := YearsScale4(months);
        var interest := principal * rate * years;
        assert interest >= 0 by {
          YearsExact(months);
        }
        SingleRounding(principal, rate, months);
        Success(HalfUpDiv(principal * 10_000_000 + interest, 10_000_000))
  }

  lemma SingleRounding(principal: int, rate: nat, months: int)
    requires principal > 0 && SupportedTerm(months)
    ensures var interest := principal * rate * YearsScale4(months);
      && interest >= 0
      && HalfUpDiv(principal * 10_000_000 + interest, 10_000_000)
         == principal + HalfUpDiv(principal * rate * months, 12000)
  {
    var years := YearsScale4(months);
    YearsExact(months);
    var pr := principal * rate;
    var interest := pr * years;
    var exact := pr * months;
    assert interest * 12 == exact * 10000 by {
      assert interest * 12 == pr * (12 * years);
      assert pr * (months * 10000) == exact * 10000;
    }
    assert interest >= 0 && exact >= 0;
    HalfUpShift(principal, interest, 10_000_000);
    SameRatio(interest, exact);
  }

  /** x / 10^7 and y / 12000 round alike when x × 12 = y × 10000. */
  lemma SameRatio(x: int, y: int)
    requires x >= 0 && y >= 0 && x * 12 == y * 10000
    ensures HalfUpDiv(x, 10_000_000) == HalfUpDiv(y, 12000)
  {
    HalfUpScale(x, 10_000_000, 12);
    HalfUpScale(y, 12000, 10000);
  }

  /** 1000.00 deposited for twelve months matures at 1025.00. */
  lemma TwelveMonthExample()
    ensures Calculate(100000, 12) == Success(102500)
  {
  }

  /** getRateDisplay: rate × 100 at two decimals followed by '%'; the rate
      is shown exactly. */
  function RateDisplay(months: int): (r: Result<string, CalcError>)
    ensures r.Success? <==> SupportedTerm(months)
    ensures r.Success? ==> r.value == DecimalText.Fixed2(AnnualRate(months).value * 10) + "%"
  {
    match AnnualRate(months)
    case Failure(e) => Failure(e)
    case Success(rate) =>
      // rate × 100 has three fraction digits; setScale(2, HALF_UP)
      var hundredths := HalfUpDiv(rate * 100, 10);
      HalfUpExact(rate * 10, 10);
      Success(DecimalText.Fixed2(hundredths) + "%")
  }

  /** The twelve-month rate is shown as "2.50%". */
  lemma RateDisplayExample()
    ensures RateDisplay(12) == Success("2.50%")
  {
    assert HalfUpDiv(2500, 10) == 250;
    assert RateDisplay(12) == Success(DecimalText.Fixed2(250) + "%");
    assert DecimalText.Digits(2) == "2";
    assert DecimalText.Fixed2(250) == "2.50";
    assert "2.50" + "%" == "2.50%";
  }
}
