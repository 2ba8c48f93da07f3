/** AtmService: one cash account plus the list of term deposits opened from
    it; every operation answers with an outcome and the service state after
    it. */
module AtmService {
  import opened Wrappers
  import opened InterestCalculator
  import opened DepositAccount
  import SimpleAccount

  datatype Atm = Atm(account: SimpleAccount.Account, deposits: seq<TermDeposit>)

  /** Why an operation answered `ok == false`. */
  datatype Refusal =
    | InvalidAmount
    | DepositFailed
    | WithdrawalFailed
    | InvalidDepositAmount
    | InsufficientBalance
    | WithdrawFundsFailed
    | TermRejected(error: CalcError)
    | InvalidIndex
    | AlreadyRedeemed
    | NotMature(yearsLeft: int)

  datatype Outcome = Ok | Refused(reason: Refusal)

  datatype Step = Step(outcome: Outcome, next: Atm)

  predicate AllValid(ds: seq<TermDeposit>) {
    forall i :: 0 <= i < |ds| ==> DepositAccount.Valid(ds[i])
  }

  /** The state every sequence of operations keeps. */
  predicate Valid(atm: Atm) {
    atm.account.balance >= 0 && AllValid(atm.deposits)
  }

  /** The service starts with no deposits. */
  function Create(account: SimpleAccount.Account): (atm: Atm)
    ensures atm.account == account && |atm.deposits| == 0
    ensures account.balance >= 0 ==> Valid(atm)
  {
    Atm(account, [])
  }

  /** deposit: a null amount is refused as invalid; the account refuses a
      non-positive one. */
  function Deposit(atm: Atm, amount: Option<int>): (r: Step)
    ensures amount.None? ==> r.outcome == Refused(InvalidAmount)
    ensures amount.Some? && amount.value <= 0 ==> r.outcome == Refused(DepositFailed)
    ensures r.outcome.Ok? <==> amount.Some? && amount.value > 0
    ensures r.outcome.Ok? ==>
      r.next.deposits == atm.deposits && r.next.account.balance == atm.account.balance + amount.value
    ensures r.outcome.Refused? ==> r.next == atm
  {
    if amount.None? then Step(Refused(InvalidAmount), atm)
    else
      match SimpleAccount.Deposit(atm.account, amount)
      case None => Step(Refused(DepositFailed), atm)
      case Some(a) => Step(Ok, atm.(account := a))
  }

  /** withdraw: a null amount is refused as invalid; the account refuses a
      non-positive amount and one above the balance. */
  function Withdraw(atm: Atm, amount: Option<int>): (r: Step)
    ensures amount.None? ==> r.outcome == Refused(InvalidAmount)
    ensures r.outcome.Ok? <==> amount.Some? && 0 < amount.value <= atm.account.balance
    ensures amount.Some? && !r.outcome.Ok? ==> r.outcome == Refused(WithdrawalFailed)
    ensures r.outcome.Ok? ==>
      r.next.deposits == atm.deposits && r.next.account.balance == atm.account.balance - amount.value
    ensures r.outcome.Refused? ==> r.next == atm
  {
    if amount.None? then Step(Refused(InvalidAmount), atm)
    else
      match SimpleAccount.Withdraw(atm.account, amount)
      case None => Step(Refused(WithdrawalFailed), atm)
      case Some(a) => Step(Ok, atm.(account := a))
  }

  /** createTermDeposit as written: the amount is withdrawn first and the
      deposit constructed afterwards, so a term the calculator rejects is
      reported as a failure after the money has already left the account. */
  function CreateTermDepositAsWritten(atm: Atm, amount: Option<int>, months: int): (r: Step)
    ensures amount.None? || amount.value <= 0 ==> r == Step(Refused(InvalidDepositAmount), atm)
    ensures r.outcome.Ok? <==>
      amount.Some? && 0 < amount.value <= atm.account.balance && SupportedTerm(months)
    ensures amount.Some? && 0 < amount.value && atm.account.balance < amount.value ==>
      r == Step(Refused(InsufficientBalance), atm)
    ensures amount.Some? && 0 < amount.value <= atm.account.balance && !SupportedTerm(months) ==>
      && r.outcome == Refused(TermRejected(InvalidTerm))
      && r.next == atm.(account := atm.account.(balance := atm.account.balance - amount.value))
    ensures r.outcome.Refused? && r.outcome.reason != TermRejected(InvalidTerm) ==> r.next == atm
  {
    match amount
    case None => Step(Refused(InvalidDepositAmount), atm)
    case Some(x) =>
      if x <= 0 then Step(Refused(InvalidDepositAmount), atm)
      else if atm.account.balance < x then Step(Refused(InsufficientBalance), atm)
      else
        match SimpleAccount.Withdraw(atm.account, Some(x))
        case None => Step(Refused(WithdrawFundsFailed), atm)
        case Some(a) =>
          match Open(x, months)
          case Failure(e) => Step(Refused(TermRejected(e)), atm.(account := a))
          case Success(d) => Step(Ok, Atm(a, atm.deposits + [d]))
  }

  /** createTermDeposit with the term validated before anything is
      withdrawn: a refusal leaves the service untouched. */
  function CreateTermDeposit(atm: Atm, amount: Option<int>, months: int): (r: Step)
    ensures amount.None? || amount.value <= 0 ==> r.outcome == Refused(InvalidDepositAmount)
    ensures amount.Some? && 0 < amount.value && atm.account.balance < amount.value ==>
      r == Step(Refused(InsufficientBalance), atm)
    ensures amount.Some? && 0 < amount.value <= atm.account.balance && !SupportedTerm(months) ==>
      r == Step(Refused(TermRejected(InvalidTerm)), atm)
    ensures r.outcome.Ok? <==>
      amount.Some? && 0 < amount.value <= atm.account.balance && SupportedTerm(months)
    ensures r.outcome.Ok? ==>
      && r.next.account.balance == atm.account.balance - amount.value
      && r.next.deposits == atm.deposits + [Open(amount.value, months).value]
    ensures r.outcome.Refused? ==> r.next == atm
  {
    match amount
    case None => Step(Refused(InvalidDepositAmount), atm)
    case Some(x) =>
      if x <= 0 then Step(Refused(InvalidDepositAmount), atm)
      else if atm.account.balance < x then Step(Refused(InsufficientBalance), atm)
      else if !SupportedTerm(months) then Step(Refused(TermRejected(InvalidTerm)), atm)
      else CreateTermDepositAsWritten(atm, amount, months)
  }

  /** On every supported term the two versions agree. */
  lemma CreateAgreesOnSupportedTerms(atm: Atm, amount: Option<int>, months: int)
    requires SupportedTerm(months)
    ensures CreateTermDeposit(atm, amount, months) == CreateTermDepositAsWritten(atm, amount, months)
  {
  }

  /** getActiveTermDeposits: the deposits not yet redeemed, in order. */
  function Active(ds: seq<TermDeposit>): (r: seq<TermDeposit>)
    ensures |r| <= |ds|
    ensures forall k :: 0 <= k < |r| ==> !r[k].redeemed && r[k] in ds
  {
    if |ds| == 0 then []
    else
      var last := ds[|ds| - 1];
      Active(ds[..|ds| - 1]) + (if last.redeemed then [] else [last])
  }

  /** Filtering a prefix gives a prefix of the filtered list: the active list
      keeps creation order. */
  lemma {:induction false} ActivePrefix(ds: seq<TermDeposit>, n: int)
    requires 0 <= n <= |ds|
    ensures |Active(ds[..n])| <= |Active(ds)|
    ensures Active(ds[..n]) == Active(ds)[..|Active(ds[..n])|]
    decreases |ds|
  {
    if n < |ds| {
      var pre := ds[..|ds| - 1];
      assert ds[..n] == pre[..n];
      ActivePrefix(pre, n);
    } else {
      assert ds[..n] == ds;
    }
  }

  /** Every live deposit is listed, right after the live deposits created
      before it. */
  lemma {:induction false} ActiveComplete(ds: seq<TermDeposit>, i: int)
    requires 0 <= i < |ds| && !ds[i].redeemed
    ensures |Active(ds[..i])| < |Active(ds)|
    ensures Active(ds)[|Active(ds[..i])|] == ds[i]
  {
    assert ds[..i + 1][..i] == ds[..i];
    assert Active(ds[..i + 1]) == Active(ds[..i]) + [ds[i]];
    ActivePrefix(ds, i + 1);
  }

  /** The stream filter read front to back: the reference definition of the
      active list. */
  function Live(ds: seq<TermDeposit>): seq<TermDeposit> {
    if |ds| == 0 then []
    else (if ds[0].redeemed then [] else [ds[0]]) + Live(ds[1..])
  }

  lemma {:induction false} LiveSnoc(ds: seq<TermDeposit>, d: TermDeposit)
    ensures Live(ds + [d]) == Live(ds) + (if d.redeemed then [] else [d])
    decreases |ds|
  {
    if |ds| == 0 {
      assert (ds + [d])[1..] == [];
    } else {
      assert (ds + [d])[1..] == ds[1..] + [d];
      LiveSnoc(ds[1..], d);
    }
  }

  /** The active list is exactly the unredeemed deposits in creation order:
      it equals the front-to-back filter. */
  lemma {:induction false} ActiveIsLive(ds: seq<TermDeposit>)
    ensures Active(ds) == Live(ds)
    decreases |ds|
  {
    if |ds| > 0 {
      var pre := ds[..|ds| - 1];
      ActiveIsLive(pre);
      assert pre + [ds[|ds| - 1]] == ds;
      LiveSnoc(pre, ds[|ds| - 1]);
    }
  }

  /** The summed current values of the deposits not yet redeemed. */
  function ActiveValue(ds: seq<TermDeposit>): int
    requires AllValid(ds)
  {
    if |ds| == 0 then 0
    else
      var last := ds[|ds| - 1];
      ActiveValue(ds[..|ds| - 1]) + (if last.redeemed then 0 else CurrentValue(last))
  }

  /** The customer's wealth: cash plus the current value of live deposits. */
  function TotalValue(atm: Atm): int
    requires AllValid(atm.deposits)
  {
    atm.account.balance + ActiveValue(atm.deposits)
  }

  /** getTotalValue. */
  method GetTotalValue(atm: Atm) returns (total: int)
    requires AllValid(atm.deposits)
    ensures total == TotalValue(atm)
  {
    var ds := atm.deposits;
    total := atm.account.balance;
    var i := 0;
    while i < |ds|
      invariant 0 <= i <= |ds|
      invariant total == atm.account.balance + ActiveValue(ds[..i])
    {
      assert ds[..i + 1][..i] == ds[..i];
      if !ds[i].redeemed {
        total := total + CurrentValue(ds[i]);
      }
      i := i + 1;
    }
    assert ds[..|ds|] == ds;
  }

  lemma {:induction false} ActiveValueAppend(ds: seq<TermDeposit>, d: TermDeposit)
    requires AllValid(ds) && DepositAccount.Valid(d)
    ensures AllValid(ds + [d])
    ensures ActiveValue(ds + [d]) == ActiveValue(ds) + (if d.redeemed then 0 else CurrentValue(d))
  {
    assert (ds + [d])[..|ds|] == ds;
  }

  /** A deposit opened with the corrected operation moves money from cash to
      the deposit and keeps the total value. */
  lemma CreatePreservesTotal(atm: Atm, amount: Option<int>, months: int)
    requires Valid(atm)
    ensures Valid(CreateTermDeposit(atm, amount, months).next)
    ensures TotalValue(CreateTermDeposit(atm, amount, months).next) == TotalValue(atm)
  {
    var r := CreateTermDeposit(atm, amount, months);
    if r.outcome.Ok? {
      var d := Open(amount.value, months).value;
      ActiveValueAppend(atm.deposits, d);
    }
  }

  /** The as-written operation with an invalid term reports a failure and
      still loses the principal from the total value. */
  lemma AsWrittenLosesPrincipal(atm: Atm, x: int, months: int)
    requires Valid(atm) && 0 < x <= atm.account.balance && !SupportedTerm(months)
    ensures CreateTermDepositAsWritten(atm, Some(x), months).outcome == Refused(TermRejected(InvalidTerm))
    ensures TotalValue(CreateTermDepositAsWritten(atm, Some(x), months).next) == TotalValue(atm) - x
  {
  }

  /** 100.00 in the account, a 100.00 deposit for 5 months: refused, and the
      account is empty. */
  lemma AsWrittenCounterexample()
    ensures var r := CreateTermDepositAsWritten(Atm(SimpleAccount.Account("ann", 10000), []), Some(10000), 5);
      r.outcome.Refused? && r.next.account.balance == 0 && r.next.deposits == []
  {
  }

  /** redeemTermDeposit: the index addresses the full deposit list. A mature,
      unredeemed deposit has its maturity amount credited and is marked
      redeemed. */
  function RedeemTermDeposit(atm: Atm, index: int): (r: Step)
    requires AllValid(atm.deposits)
    ensures !(0 <= index < |atm.deposits|) ==> r.outcome == Refused(InvalidIndex)
    ensures 0 <= index < |atm.deposits| && atm.deposits[index].redeemed ==>
      r.outcome == Refused(AlreadyRedeemed)
    ensures r.outcome.Ok? <==>
      0 <= index < |atm.deposits| && !atm.deposits[index].redeemed && IsMature(atm.deposits[index])
    ensures 0 <= index < |atm.deposits| && !atm.deposits[index].redeemed && !IsMature(atm.deposits[index]) ==>
      r.outcome == Refused(NotMature(RequiredYears(atm.deposits[index].termMonths) - atm.deposits[index].elapsedYears))
    ensures r.outcome.Refused? && r.outcome.reason.NotMature? ==> r.outcome.reason.yearsLeft > 0
    ensures r.outcome.Ok? ==>
      && r.next.account.balance == atm.account.balance + atm.deposits[index].maturityAmount
      && r.next.account.owner == atm.account.owner
      && r.next.deposits == atm.deposits[index := MarkRedeemed(atm.deposits[index])]
    ensures r.outcome.Refused? ==> r.next == atm
  {
    if index < 0 || index >= |atm.deposits| then Step(Refused(InvalidIndex), atm)
    else
      var d := atm.deposits[index];
      if d.redeemed then Step(Refused(AlreadyRedeemed), atm)
      else if !IsMature(d) then
        Step(Refused(NotMature(RequiredYears(d.termMonths) - d.elapsedYears)), atm)
      else
        // the boolean answer of account.deposit is ignored
        var a := match SimpleAccount.Deposit(atm.account, Some(d.maturityAmount))
          case Some(a) => a
          case None => atm.account;
        Step(Ok, Atm(a, atm.deposits[index := MarkRedeemed(d)]))
  }

  /** u is ds with the live deposit i marked redeemed. */
  predicate RedeemedAt(ds: seq<TermDeposit>, i: int, u: seq<TermDeposit>) {
    && 0 <= i < |ds| == |u| && !ds[i].redeemed && u[i] == MarkRedeemed(ds[i])
    && forall k :: 0 <= k < |ds| && k != i ==> u[k] == ds[k]
  }

  lemma RedeemedValid(ds: seq<TermDeposit>, i: int, u: seq<TermDeposit>)
    requires AllValid(ds) && RedeemedAt(ds, i, u)
    ensures AllValid(u)
  {
    assert DepositAccount.Valid(u[i]);
  }

  lemma PrefixValid(ds: seq<TermDeposit>, n: int)
    requires AllValid(ds) && 0 <= n <= |ds|
    ensures AllValid(ds[..n])
  {
    assert forall k :: 0 <= k < n ==> ds[..n][k] == ds[k];
  }

  /** Marking the live deposit i redeemed removes its current value from
      the live total. */
  lemma {:induction false} ActiveValueRedeem(ds: seq<TermDeposit>, i: int, u: seq<TermDeposit>)
    requires AllValid(ds) && RedeemedAt(ds, i, u)
    ensures AllValid(u)
    ensures ActiveValue(u) == ActiveValue(ds) - CurrentValue(ds[i])
    decreases |ds|
  {
    var n := |ds|;
    RedeemedValid(ds, i, u);
    var ps, pu := ds[..n - 1], u[..n - 1];
    PrefixValid(ds, n - 1);
    PrefixValid(u, n - 1);
    if i == n - 1 {
      assert pu == ps;
    } else {
      assert RedeemedAt(ps, i, pu);
      ActiveValueRedeem(ps, i, pu);
      assert u[n - 1] == ds[n - 1];
    }
  }

  /** Redeeming moves the (mature) deposit's value into cash: the total is
      unchanged. */
  lemma RedeemPreservesTotal(atm: Atm, index: int)
    requires Valid(atm)
    ensures Valid(RedeemTermDeposit(atm, index).next)
    ensures TotalValue(RedeemTermDeposit(atm, index).next) == TotalValue(atm)
  {
    var r := RedeemTermDeposit(atm, index);
    if r.outcome.Ok? {
      ActiveValueRedeem(atm.deposits, index, r.next.deposits);
    }
  }

  /** A deposit pays out once: the same index is refused afterwards. */
  lemma RedeemOnce(atm: Atm, index: int)
    requires AllValid(atm.deposits) && RedeemTermDeposit(atm, index).outcome.Ok?
    ensures AllValid(RedeemTermDeposit(atm, index).next.deposits)
    ensures RedeemTermDeposit(RedeemTermDeposit(atm, index).next, index).outcome == Refused(AlreadyRedeemed)
  {
    var u := RedeemTermDeposit(atm, index).next.deposits;
    assert forall k :: 0 <= k < |u| ==> DepositAccount.Valid(u[k]) by {
      forall k | 0 <= k < |u| ensures DepositAccount.Valid(u[k]) {
        assert k != index ==> u[k] == atm.deposits[k];
      }
    }
  }

  /** The full-list position of the `m`-th active deposit: the one with
      exactly `m` active deposits before it. */
  function ActiveIndex(ds: seq<TermDeposit>, m: int): (i: int)
    requires 0 <= m < |Active(ds)|
    ensures 0 <= i < |ds| && !ds[i].redeemed
    ensures ds[i] == Active(ds)[m] && |Active(ds[..i])| == m
    decreases |ds|
  {
    var n := |ds|;
    var pre := ds[..n - 1];
    if m < |Active(pre)| then
      var i := ActiveIndex(pre, m);
      assert ds[..i] == pre[..i];
      i
    else
      n - 1
  }

  /** Redeem by the number shown next to an active deposit, as both user
      interfaces list them: the shown number is translated to the deposit's
      full-list position. */
  function RedeemShown(atm: Atm, shown: int): (r: Step)
    requires AllValid(atm.deposits)
    ensures !(0 <= shown < |Active(atm.deposits)|) ==> r == Step(Refused(InvalidIndex), atm)
    ensures r.outcome.Ok? <==>
      0 <= shown < |Active(atm.deposits)| && IsMature(Active(atm.deposits)[shown])
    ensures r.outcome.Ok? ==>
      r.next.account.balance == atm.account.balance + Active(atm.deposits)[shown].maturityAmount
    ensures r.outcome.Ok? ==>
      var i := ActiveIndex(atm.deposits, shown);
      r.next.deposits == atm.deposits[i := MarkRedeemed(atm.deposits[i])]
    ensures r.outcome.Refused? ==> r.outcome.reason != AlreadyRedeemed && r.next == atm
  {
    if 0 <= shown < |Active(atm.deposits)| then
      RedeemTermDeposit(atm, ActiveIndex(atm.deposits, shown))
    else
      Step(Refused(InvalidIndex), atm)
  }

  /** Marking the live deposit i redeemed drops it, and only it, from the
      active list. */
  lemma ActiveRedeem(ds: seq<TermDeposit>, i: int, u: seq<TermDeposit>)
    requires RedeemedAt(ds, i, u)
    ensures |Active(ds[..i])| < |Active(ds)|
    ensures var m := |Active(ds[..i])|;
      Active(u) == Active(ds)[..m] + Active(ds)[m + 1..]
  {
    var a, b := ds[..i], ds[i + 1..];
    assert ds == a + [ds[i]] + b;
    assert u == a + [u[i]] + b;
    ActiveSplit(a, ds[i], b);
    ActiveSplit(a, u[i], b);
    DropMiddle(Active(a), ds[i], Active(b));
  }

  /** The listing of a + [d] + b: d is listed between the listings of a and
      b exactly when it is live. */
  lemma ActiveSplit(a: seq<TermDeposit>, d: TermDeposit, b: seq<TermDeposit>)
    ensures Active(a + [d] + b) == Active(a) + (if d.redeemed then [] else [d]) + Active(b)
  {
    ActiveConcat(a + [d], b);
    assert (a + [d])[..|a|] == a;
  }

  /** Listing distributes over concatenation. */
  lemma {:induction false} ActiveConcat(a: seq<TermDeposit>, b: seq<TermDeposit>)
    ensures Active(a + b) == Active(a) + Active(b)
    decreases |b|
  {
    if |b| == 0 {
      assert a + b == a;
    } else {
      var c := b[..|b| - 1];
      assert (a + b)[..|a + b| - 1] == a + c;
      ActiveConcat(a, c);
    }
  }

  /** Dropping the middle element of p + [d] + q at position |p|. */
  lemma DropMiddle(p: seq<TermDeposit>, d: TermDeposit, q: seq<TermDeposit>)
    ensures (p + [d] + q)[..|p|] + (p + [d] + q)[|p| + 1..] == p + q
  {
    assert (p + [d] + q)[..|p|] == p;
    assert (p + [d] + q)[|p| + 1..] == q;
  }

  /** Redeeming by a shown number keeps the service valid and its total
      value. */
  lemma RedeemShownPreservesTotal(atm: Atm, shown: int)
    requires Valid(atm)
    ensures Valid(RedeemShown(atm, shown).next)
    ensures TotalValue(RedeemShown(atm, shown).next) == TotalValue(atm)
  {
    if 0 <= shown < |Active(atm.deposits)| {
      RedeemPreservesTotal(atm, ActiveIndex(atm.deposits, shown));
    }
  }

  /** A successful redemption by shown number removes exactly that entry
      from the listing. */
  lemma RedeemShownListing(atm: Atm, shown: int)
    requires AllValid(atm.deposits)
    requires 0 <= shown < |Active(atm.deposits)| && IsMature(Active(atm.deposits)[shown])
    ensures RedeemShown(atm, shown).outcome.Ok?
    ensures Active(RedeemShown(atm, shown).next.deposits)
      == Active(atm.deposits)[..shown] + Active(atm.deposits)[shown + 1..]
  {
    var i := ActiveIndex(atm.deposits, shown);
    ActiveRedeem(atm.deposits, i, RedeemShown(atm, shown).next.deposits);
  }

  /** Once a deposit has been redeemed the shown numbers and the full-list
      positions part: [redeemed, mature 1025.00, mature 2050.00] is shown as
      [0] 1025.00, [1] 2050.00, yet index 0 is refused as already redeemed
      and index 1 pays 1025.00 instead of 2050.00. */
  lemma ShownIndexMismatch()
    ensures var atm := MismatchAtm();
      && AllValid(atm.deposits)
      && Active(atm.deposits) == [atm.deposits[1], atm.deposits[2]]
      && RedeemTermDeposit(atm, 0).outcome == Refused(AlreadyRedeemed)
      && RedeemShown(atm, 0).outcome.Ok?
      && RedeemTermDeposit(atm, 1).next.account.balance == 102500
      && RedeemShown(atm, 1).next.account.balance == 205000
  {
    MismatchActive();
    var atm := MismatchAtm();
    assert ActiveIndex(atm.deposits, 0) == 1 && ActiveIndex(atm.deposits, 1) == 2;
  }

  /** An empty account holding a redeemed deposit and two mature ones of
      1025.00 and 2050.00. */
  function MismatchAtm(): Atm {
    Atm(SimpleAccount.Account("ann", 0), [
      TermDeposit(100000, 12, 102500, true, 1),
      TermDeposit(100000, 12, 102500, false, 1),
      TermDeposit(200000, 12, 205000, false, 1)])
  }

  lemma MismatchActive()
    ensures var ds := MismatchAtm().deposits;
      AllValid(ds) && Active(ds) == [ds[1], ds[2]]
  {
    var ds := MismatchAtm().deposits;
    var d0, d1, d2 := ds[0], ds[1], ds[2];
    assert ds == [d0, d1, d2];
    YearDepositValid(d0, 100000, 102500);
    YearDepositValid(d1, 100000, 102500);
    YearDepositValid(d2, 200000, 205000);
    assert ds[..1] == [d0] && ds[..2] == [d0, d1] && [d0][..0] == [];
    assert [d0, d1][..1] == [d0];
    assert Active([d0]) == [];
    assert Active([d0, d1]) == [d1];
  }

  /** The twelve-month deposits of 1000.00 and 2000.00 mature at 1025.00
      and 2050.00. */
  lemma YearDepositValid(d: TermDeposit, p: int, m: int)
    requires (p == 100000 && m == 102500) || (p == 200000 && m == 205000)
    requires d.principal == p && d.termMonths == 12 && d.maturityAmount == m
    ensures DepositAccount.Valid(d)
  {
    assert Calculate(p, 12) == Success(p + Money.HalfUpDiv(p * 25 * 12, 12000));
    Money.HalfUpExact(p / 40, 12000);
  }

  /** The immature deposits not yet redeemed. */
  function Immature(ds: seq<TermDeposit>): nat
    requires AllValid(ds)
  {
    if |ds| == 0 then 0
    else
      var last := ds[|ds| - 1];
      Immature(ds[..|ds| - 1]) + (if !last.redeemed && !IsMature(last) then 1 else 0)
  }

  /** A live deposit that is not mature now and is mature a year later. */
  predicate JustMatures(d: TermDeposit)
    requires DepositAccount.Valid(d)
  {
    !d.redeemed && !IsMature(d) && IsMature(AddYear(d))
  }

  function NewlyMatured(ds: seq<TermDeposit>): nat
    requires AllValid(ds)
  {
    if |ds| == 0 then 0
    else NewlyMatured(ds[..|ds| - 1]) + (if JustMatures(ds[|ds| - 1]) then 1 else 0)
  }

  function TickOne(d: TermDeposit): TermDeposit {
    if d.redeemed then d else AddYear(d)
  }

  /** A simulated year: every live deposit ages by one year, redeemed ones
      stay as they are. */
  function Tick(ds: seq<TermDeposit>): (r: seq<TermDeposit>)
    ensures |r| == |ds|
    ensures forall k :: 0 <= k < |ds| ==> r[k] == TickOne(ds[k])
  {
    if |ds| == 0 then [] else Tick(ds[..|ds| - 1]) + [TickOne(ds[|ds| - 1])]
  }

  /** processYearPassed: age every live deposit and count those that became
      mature on this tick. */
  method ProcessYearPassed(atm: Atm) returns (matured: int, next: Atm)
    requires AllValid(atm.deposits)
    ensures next == atm.(deposits := Tick(atm.deposits))
    ensures matured == NewlyMatured(atm.deposits)
  {
    var ds := atm.deposits;
    var out: seq<TermDeposit> := [];
    matured := 0;
    var i := 0;
    while i < |ds|
      invariant 0 <= i <= |ds|
      invariant out == Tick(ds[..i])
      invariant matured == NewlyMatured(ds[..i])
    {
      out, matured := YearPassedOne(ds, i, out, matured);
      i := i + 1;
    }
    assert ds[..|ds|] == ds;
    next := atm.(deposits := out);
  }

  /** One round of the loop of processYearPassed: deposit i ages and is
      counted when it became mature. */
  method YearPassedOne(ds: seq<TermDeposit>, i: int, out0: seq<TermDeposit>, matured0: int)
    returns (out: seq<TermDeposit>, matured: int)
    requires AllValid(ds) && 0 <= i < |ds|
    requires out0 == Tick(ds[..i]) && matured0 == NewlyMatured(ds[..i])
    ensures out == Tick(ds[..i + 1]) && matured == NewlyMatured(ds[..i + 1])
  {
    assert ds[..i + 1][..i] == ds[..i];
    matured := matured0;
    var d := ds[i];
    if !d.redeemed {
      var wasMature := IsMature(d);
      d := AddYear(d);
      if !wasMature && IsMature(d) {
        matured := matured + 1;
      }
    }
    out := out0 + [d];
  }

  lemma {:induction false} TickValid(ds: seq<TermDeposit>)
    requires AllValid(ds)
    ensures AllValid(Tick(ds))
  {
    assert forall k :: 0 <= k < |ds| ==> Tick(ds)[k] == TickOne(ds[k]);
  }

  /** Every deposit that matures on a tick leaves the immature count. */
  lemma {:induction false} TickMaturesCounted(ds: seq<TermDeposit>)
    requires AllValid(ds)
    ensures AllValid(Tick(ds))
    ensures Immature(Tick(ds)) + NewlyMatured(ds) == Immature(ds)
    decreases |ds|
  {
    TickValid(ds);
    if |ds| > 0 {
      var pre := ds[..|ds| - 1];
      assert Tick(ds)[..|ds| - 1] == Tick(pre);
      TickMaturesCounted(pre);
    }
  }

  /** A tick never lowers the value of the live deposits. */
  lemma {:induction false} TickNeverLowersValue(ds: seq<TermDeposit>)
    requires AllValid(ds)
    ensures AllValid(Tick(ds))
    ensures ActiveValue(ds) <= ActiveValue(Tick(ds))
    decreases |ds|
  {
    TickValid(ds);
    if |ds| > 0 {
      var pre := ds[..|ds| - 1];
      var last := ds[|ds| - 1];
      assert Tick(ds)[..|ds| - 1] == Tick(pre);
      TickNeverLowersValue(pre);
      CurrentValueMonotone(last);
    }
  }
}
