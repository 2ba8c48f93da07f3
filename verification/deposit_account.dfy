/** DepositAccount: one term deposit, its maturity by simulated years, and
    its value accrued linearly over the term. */
module DepositAccount {
  import opened Wrappers
  import opened Money
  import opened InterestCalculator

  /** The owner is checked for null and otherwise discarded; the maturity
      date is a calendar value the core never reads back. */
  datatype TermDeposit = TermDeposit(
    principal: int,
    termMonths: int,
    maturityAmount: int,
    redeemed: bool,
    elapsedYears: nat)

  /** What every constructed deposit satisfies. */
  predicate Valid(d: TermDeposit) {
    && d.principal > 0
    && SupportedTerm(d.termMonths)
    && Calculate(d.principal, d.termMonths) == Success(d.maturityAmount)
  }

  /** The constructor: a non-positive principal is refused, and so is a term
      the calculator rejects; otherwise a fresh, unredeemed deposit. */
  function Open(principal: int, termMonths: int): (r: Result<TermDeposit, CalcError>)
    ensures principal <= 0 ==> r == Failure(PrincipalNotPositive)
    ensures principal > 0 && !SupportedTerm(termMonths) ==> r == Failure(InvalidTerm)
    ensures r.Success? <==> principal > 0 && SupportedTerm(termMonths)
    ensures r.Success? ==> Valid(r.value) && !r.value.redeemed && r.value.elapsedYears == 0
    ensures r.Success? ==> r.value.principal == principal && r.value.termMonths == termMonths
  {
    if principal <= 0 then Failure(PrincipalNotPositive)
    else
      match Calculate(principal, termMonths)
      case Failure(e) => Failure(e)
      case Success(m) => Success(TermDeposit(principal, termMonths, m, false, 0))
  }

  /** ⌈termMonths / 12⌉, the whole years a deposit must run. */
  function RequiredYears(termMonths: int): (y: int)
    requires termMonths >= 0
    ensures y * 12 >= termMonths && (y - 1) * 12 < termMonths
  {
    (termMonths + 11) / 12
  }

  predicate IsMature(d: TermDeposit)
    requires d.termMonths >= 0
  {
    d.elapsedYears >= RequiredYears(d.termMonths)
  }

  /** getInterest. */
  function Interest(d: TermDeposit): (i: int)
    requires Valid(d)
    ensures i >= 0
    ensures i == HalfUpDiv(d.principal * AnnualRate(d.termMonths).value * d.termMonths, 12000)
  {
    d.maturityAmount - d.principal
  }

  function AddYear(d: TermDeposit): (r: TermDeposit)
    ensures r.elapsedYears == d.elapsedYears + 1
    ensures r.(elapsedYears := d.elapsedYears) == d
  {
    d.(elapsedYears := d.elapsedYears + 1)
  }

  function MarkRedeemed(d: TermDeposit): (r: TermDeposit)
    ensures r.redeemed
    ensures r.(redeemed := d.redeemed) == d
  {
    d.(redeemed := true)
  }

  /** getCurrentValue: the maturity amount once mature; before that the
      principal plus the interest pro rata of the elapsed whole years over
      the four-digit year count, rounded HALF_UP to cents. */
  function CurrentValue(d: TermDeposit): (v: int)
    requires Valid(d)
    ensures d.principal <= v <= d.maturityAmount
    ensures IsMature(d) ==> v == d.maturityAmount
    ensures d.elapsedYears == 0 ==> v == d.principal
    ensures !IsMature(d) ==>
      v == d.principal + HalfUpDiv(Interest(d) * d.elapsedYears * 12, d.termMonths)
  {
    if IsMature(d) then d.maturityAmount
    else
      var t := YearsScale4(d.termMonths);
      var accrued := Interest(d) * d.elapsedYears * 10000;
      AccruedBounds(d);
      YearsExact(d.termMonths);
      AccruedExact(Interest(d) * d.elapsedYears, d.termMonths, t);
      d.principal + HalfUpDiv(accrued, t)
  }

  /** Dividing by the four-digit year count loses nothing: the accrued
      interest is the exact ratio interest × years × 12 / months, rounded
      once. */
  lemma AccruedExact(a: int, months: int, t: int)
    requires a >= 0 && months > 0 && t > 0 && 12 * t == months * 10000
    ensures HalfUpDiv(a * 10000, t) == HalfUpDiv(a * 12, months)
  {
    HalfUpScale(a * 10000, t, 12);
    assert a * 10000 * 12 == a * 12 * 10000;
    assert t * 12 == months * 10000;
    HalfUpScale(a * 12, months, 10000);
  }

  /** Before maturity the elapsed years are less than the term, so the pro
      rata interest lies between nothing and all of it. */
  lemma AccruedBounds(d: TermDeposit)
    requires Valid(d) && !IsMature(d)
    ensures YearsScale4(d.termMonths) > 0
    ensures 0 <= HalfUpDiv(Interest(d) * d.elapsedYears * 10000, YearsScale4(d.termMonths)) <= Interest(d)
    ensures d.elapsedYears == 0 ==> HalfUpDiv(Interest(d) * d.elapsedYears * 10000, YearsScale4(d.termMonths)) == 0
  {
    var t := YearsScale4(d.termMonths);
    var e := d.elapsedYears;
    YearsExact(d.termMonths);
    assert e * 10000 < t;
    ProRataBounds(Interest(d), e, t);
  }

  /** Less than the whole term earns at most the whole interest. */
  lemma ProRataBounds(i: int, e: int, t: int)
    requires i >= 0 && e >= 0 && e * 10000 < t
    ensures 0 <= HalfUpDiv(i * e * 10000, t) <= i
    ensures e == 0 ==> HalfUpDiv(i * e * 10000, t) == 0
  {
    MulMonotone(i, e * 10000, t);
    assert 0 <= i * (e * 10000) by { MulMonotone(i, 0, e * 10000); }
    assert i * (e * 10000) == i * e * 10000;
    HalfUpMonotone(i * e * 10000, i * t, t);
    HalfUpExact(i, t);
    assert i * t == t * i;
    HalfUpExact(0, t);
  }

  /** A further year never lowers the current value. */
  lemma CurrentValueMonotone(d: TermDeposit)
    requires Valid(d)
    ensures Valid(AddYear(d)) && CurrentValue(d) <= CurrentValue(AddYear(d))
  {
    var n := AddYear(d);
    if !IsMature(n) {
      assert !IsMature(d) && Interest(n) == Interest(d);
      AccruedBounds(d);
      AccrualMonotone(Interest(d), d.elapsedYears, n.elapsedYears, YearsScale4(d.termMonths));
    }
  }

  /** The pro rata interest grows with the elapsed years. */
  lemma AccrualMonotone(i: int, e1: int, e2: int, t: int)
    requires i >= 0 && 0 <= e1 <= e2 && t > 0
    ensures HalfUpDiv(i * e1 * 10000, t) <= HalfUpDiv(i * e2 * 10000, t)
  {
    MulMonotone(i, e1, e2);
    MulMonotone(10000, i * e1, i * e2);
    assert 0 <= i * e1 by { MulMonotone(i, 0, e1); }
    assert i * e1 * 10000 == 10000 * (i * e1) && i * e2 * 10000 == 10000 * (i * e2);
    HalfUpMonotone(i * e1 * 10000, i * e2 * 10000, t);
  }

  /** A 24-month deposit of 1000.00 matures at 1060.00 and is worth 1030.00
      after its first year. */
  lemma HalfwayExample()
    ensures var d := TermDeposit(100000, 24, 106000, false, 1);
      Valid(d) && CurrentValue(d) == 103000
  {
    var d := TermDeposit(100000, 24, 106000, false, 1);
    assert HalfUpDiv(100000 * 30 * 24, 12000) == 6000;
    assert HalfUpDiv(6000 * 1 * 10000, 20000) == 3000;
    assert YearsScale4(24) == 20000;
  }
}
