/** SimpleAccount: the in-memory cash account behind the ATM service. */
module SimpleAccount {
  import opened Wrappers
  import opened Money
  import JavaText

  datatype Account = Account(owner: string, balance: int)

  /** The two IllegalArgumentExceptions of the constructor. */
  datatype OpenError = OwnerBlank | NegativeInitial

  /** The balance a missing (null) initial amount or a given one starts
      from: the amount cut DOWN to two fraction digits. */
  function InitialCents(initial: Option<Decimal>): int {
    match initial
    case None => 0
    case Some(x) => TruncateToCents(x)
  }

  /** The constructor: the owner is trimmed and must not be empty; the
      initial amount, truncated toward zero to cents, must not be negative. */
  function Open(owner: string, initial: Option<Decimal>): (r: Result<Account, OpenError>)
    ensures r == Failure(OwnerBlank) <==> JavaText.Trim(owner) == []
    ensures r == Failure(NegativeInitial) <==> JavaText.Trim(owner) != [] && InitialCents(initial) < 0
    ensures r.Success? ==> r.value.owner == JavaText.Trim(owner) && r.value.balance == InitialCents(initial)
    ensures r.Success? ==> r.value.balance >= 0
  {
    var o := JavaText.Trim(owner);
    if o == [] then Failure(OwnerBlank)
    else
      var init := InitialCents(initial);
      if init < 0 then Failure(NegativeInitial) else Success(Account(o, init))
  }

  /** A negative initial amount above −0.01 truncates to zero and is
      accepted: −0.001 opens an account with a zero balance. */
  lemma TinyNegativeAccepted()
    ensures Open("ann", Some(Decimal(-1, 3))) == Success(Account("ann", 0))
  {
    assert Pow10(1) == 10;
    assert JavaText.Trim("ann") == "ann" by {
      JavaText.TrimClean("ann");
    }
  }

  /** Any initial amount at or above zero is accepted, and the balance never
      exceeds it. */
  lemma NonNegativeInitialAccepted(owner: string, x: Decimal)
    requires JavaText.Trim(owner) != [] && x.unscaled >= 0
    ensures Open(owner, Some(x)).Success?
    ensures x.scale > 2 ==> Open(owner, Some(x)).value.balance * Pow10(x.scale - 2) <= x.unscaled
  {
    if x.scale <= 2 {
      assert x.unscaled * Pow10(2 - x.scale) >= 0;
    }
  }

  /** deposit: None (false) for a null or non-positive amount, leaving the
      account as it was; otherwise the amount is added. */
  function Deposit(a: Account, amount: Option<int>): (r: Option<Account>)
    ensures r.Some? <==> amount.Some? && amount.value > 0
    ensures r.Some? ==> r.value.owner == a.owner && r.value.balance == a.balance + amount.value
  {
    match amount
    case None => None
    case Some(x) => if x <= 0 then None else Some(a.(balance := a.balance + x))
  }

  /** withdraw: refused for a null or non-positive amount and for one above
      the balance. */
  function Withdraw(a: Account, amount: Option<int>): (r: Option<Account>)
    ensures r.Some? <==> amount.Some? && 0 < amount.value <= a.balance
    ensures r.Some? ==> r.value.owner == a.owner && r.value.balance == a.balance - amount.value
  {
    match amount
    case None => None
    case Some(x) =>
      if x <= 0 then None
      else if a.balance < x then None
      else Some(a.(balance := a.balance - x))
  }

  /** No successful operation drives a non-negative balance below zero. */
  lemma BalanceStaysNonNegative(a: Account, amount: Option<int>)
    requires a.balance >= 0
    ensures Deposit(a, amount).Some? ==> Deposit(a, amount).value.balance >= 0
    ensures Withdraw(a, amount).Some? ==> Withdraw(a, amount).value.balance >= 0
  {
  }

  /** A withdrawal of what was just deposited restores the account. */
  lemma WithdrawUndoesDeposit(a: Account, x: int)
    requires a.balance >= 0 && x > 0
    ensures Deposit(a, Some(x)).Some?
    ensures Withdraw(Deposit(a, Some(x)).value, Some(x)) == Some(a)
  {
    var b := Deposit(a, Some(x)).value;
    assert b.balance - x == a.balance;
    assert b.(balance := b.balance - x) == a;
  }

  /** A deposit of what was just withdrawn restores the account. */
  lemma DepositUndoesWithdraw(a: Account, x: int)
    requires 0 < x <= a.balance
    ensures Withdraw(a, Some(x)).Some?
    ensures Deposit(Withdraw(a, Some(x)).value, Some(x)) == Some(a)
  {
    var b := Withdraw(a, Some(x)).value;
    assert b.(balance := b.balance + x) == a;
  }
}
