/** The controller of the first console ATM: users by username, deposits,
    withdrawals, password changes and a periodic interest run. Each
    IllegalArgumentException the controller throws is a `Failure`. */
module Atm1Bank {
  import opened Wrappers
  import JavaText
  import opened Atm1User

  datatype Bank = Bank(users: map<string, User>, interestRate: real)

  /** The exception messages, by cause. */
  datatype BankError =
    | UsernameBlank
    | UsernameTaken
    | InvalidUser
    | AmountNotPositive
    | InsufficientBalance
    | OldPasswordWrong
    | NewPasswordBlank

  /** The single-argument constructor's rate. */
  const DefaultRate: real := 0.02

  /** Every user is filed under its own username, which is trimmed, and owes
      nothing. */
  predicate Valid(b: Bank) {
    forall k :: k in b.users ==>
      b.users[k].username == k && JavaText.IsTrimmed(k) && b.users[k].balance >= 0
  }

  const Admin: User := NewUser("admin", "管理员", "男", "123456")

  /** ensureDefaultAdmin: an existing "admin" entry is kept as it is. */
  function EnsureDefaultAdmin(users: map<string, User>): (r: map<string, User>)
    ensures "admin" in r
    ensures "admin" in users ==> r == users
    ensures "admin" !in users ==> r == users["admin" := Admin]
  {
    if "admin" in users then users else users["admin" := Admin]
  }

  /** The constructor: the users read from the storage file (none when it is
      missing or unreadable), completed by the default administrator. */
  function Construct(loaded: map<string, User>, rate: real): (b: Bank)
    ensures "admin" in b.users && b.interestRate == rate
    ensures forall k :: k in loaded ==> k in b.users && b.users[k] == loaded[k]
    ensures forall k :: k in b.users ==> k in loaded || k == "admin"
    ensures "admin" !in loaded ==> b.users["admin"] == Admin && Admin.password == "123456"
    ensures Valid(Bank(loaded, rate)) ==> Valid(b)
  {
    JavaText.TrimClean("admin");
    Bank(EnsureDefaultAdmin(loaded), rate)
  }

  /** normalize: a null or blank username is refused, anything else is
      trimmed. */
  function Normalize(value: Option<string>): (r: Result<string, BankError>)
    ensures r.Failure? ==> r.error == UsernameBlank
    ensures r.Success? <==> value.Some? && JavaText.Trim(value.value) != []
    ensures r.Success? ==> r.value == JavaText.Trim(value.value)
  {
    match value
    case None => Failure(UsernameBlank)
    case Some(v) =>
      var t := JavaText.Trim(v);
      if t == [] then Failure(UsernameBlank) else Success(t)
  }

  /** A normalised username normalises to itself. */
  lemma NormalizeIdempotent(value: Option<string>)
    requires Normalize(value).Success?
    ensures Normalize(Some(Normalize(value).value)) == Normalize(value)
  {
    JavaText.TrimIdempotent(value.value);
  }

  /** createUser: the username normalised, name and gender trimmed; a taken
      username is refused. */
  function CreateUser(b: Bank, username: Option<string>, name: string, gender: string, password: string)
    : (r: Result<Bank, BankError>)
    ensures Normalize(username).Failure? ==> r == Failure(UsernameBlank)
    ensures r.Success? <==> Normalize(username).Success? && Normalize(username).value !in b.users
    ensures r.Success? ==>
      var key := Normalize(username).value;
      && r.value.interestRate == b.interestRate
      && r.value.users == b.users[key := NewUser(key, JavaText.Trim(name), JavaText.Trim(gender), password)]
    ensures Valid(b) && r.Success? ==> Valid(r.value)
  {
    match Normalize(username)
    case Failure(e) => Failure(e)
    case Success(key) =>
      if key in b.users then Failure(UsernameTaken)
      else
        var u := NewUser(key, JavaText.Trim(name), JavaText.Trim(gender), password);
        Success(b.(users := b.users[key := u]))
  }

  /** authenticate: the user under the trimmed username, if the password
      matches. */
  function Authenticate(b: Bank, username: Option<string>, password: Option<string>): (r: Option<User>)
    ensures r.Some? <==>
      username.Some? && password.Some? && JavaText.Trim(username.value) in b.users
      && PasswordMatches(b.users[JavaText.Trim(username.value)], password)
    ensures r.Some? ==> r.value == b.users[JavaText.Trim(username.value)]
  {
    if username.None? || password.None? then None
    else
      var key := JavaText.Trim(username.value);
      if key in b.users && PasswordMatches(b.users[key], password) then Some(b.users[key]) else None
  }

  /** A freshly created user can log in with the username as typed and the
      chosen password. */
  lemma CreatedUserAuthenticates(b: Bank, username: string, name: string, gender: string, password: string)
    requires CreateUser(b, Some(username), name, gender, password).Success?
    ensures var b2 := CreateUser(b, Some(username), name, gender, password).value;
      var u := Authenticate(b2, Some(username), Some(password));
      u.Some? && u.value.username == JavaText.Trim(username) && u.value.balance == 0
  {
  }

  /** requireUser: the managed user filed under the handle's username. */
  function RequireUser(b: Bank, who: Option<User>): (r: Result<User, BankError>)
    ensures r.Success? <==> who.Some? && who.value.username in b.users
    ensures r.Failure? ==> r.error == InvalidUser
    ensures r.Success? ==> r.value == b.users[who.value.username]
  {
    if who.None? || who.value.username !in b.users then Failure(InvalidUser)
    else Success(b.users[who.value.username])
  }

  function QueryBalance(b: Bank, who: Option<User>): (r: Result<int, BankError>)
    ensures r.Success? <==> RequireUser(b, who).Success?
    ensures r.Success? ==> r.value == b.users[who.value.username].balance
    ensures Valid(b) && r.Success? ==> r.value >= 0
  {
    match RequireUser(b, who)
    case Failure(e) => Failure(e)
    case Success(u) => Success(u.balance)
  }

  /** deposit: an unknown user first, then a non-positive amount, is
      refused. */
  function Deposit(b: Bank, who: Option<User>, amount: int): (r: Result<Bank, BankError>)
    ensures RequireUser(b, who).Failure? ==> r == Failure(InvalidUser)
    ensures RequireUser(b, who).Success? && amount <= 0 ==> r == Failure(AmountNotPositive)
    ensures r.Success? <==> RequireUser(b, who).Success? && amount > 0
    ensures r.Success? ==>
      var k := who.value.username;
      r.value == b.(users := b.users[k := Credit(b.users[k], amount)])
    ensures Valid(b) && r.Success? ==> Valid(r.value)
  {
    match RequireUser(b, who)
    case Failure(e) => Failure(e)
    case Success(u) =>
      if amount <= 0 then Failure(AmountNotPositive)
      else Success(b.(users := b.users[who.value.username := Credit(u, amount)]))
  }

  /** withdraw: an unknown user, a non-positive amount and an amount above
      the balance are refused, in that order. */
  function Withdraw(b: Bank, who: Option<User>, amount: int): (r: Result<Bank, BankError>)
    ensures RequireUser(b, who).Failure? ==> r == Failure(InvalidUser)
    ensures RequireUser(b, who).Success? && amount <= 0 ==> r == Failure(AmountNotPositive)
    ensures RequireUser(b, who).Success? && amount > b.users[who.value.username].balance && amount > 0 ==>
      r == Failure(InsufficientBalance)
    ensures r.Success? <==>
      RequireUser(b, who).Success? && 0 < amount <= b.users[who.value.username].balance
    ensures r.Success? ==>
      var k := who.value.username;
      r.value == b.(users := b.users[k := Debit(b.users[k], amount)])
    ensures Valid(b) && r.Success? ==> Valid(r.value)
  {
    match RequireUser(b, who)
    case Failure(e) => Failure(e)
    case Success(u) =>
      if amount <= 0 then Failure(AmountNotPositive)
      else if amount > u.balance then Failure(InsufficientBalance)
      else Success(b.(users := b.users[who.value.username := Debit(u, amount)]))
  }

  /** Withdrawing what was just deposited restores the bank. */
  lemma WithdrawUndoesDeposit(b: Bank, who: Option<User>, amount: int)
    requires Valid(b) && Deposit(b, who, amount).Success?
    ensures Withdraw(Deposit(b, who, amount).value, who, amount) == Success(b)
  {
    var k := who.value.username;
    DebitUndoesCredit(b.users[k], amount);
    var b2 := Deposit(b, who, amount).value;
    assert b2.users[k := Debit(b2.users[k], amount)] == b.users;
  }

  /** changePassword: an unknown user, a wrong old password and a null or
      blank new password are refused, in that order. */
  function ChangePassword(b: Bank, who: Option<User>, oldPassword: Option<string>, newPassword: Option<string>)
    : (r: Result<Bank, BankError>)
    ensures RequireUser(b, who).Failure? ==> r == Failure(InvalidUser)
    ensures RequireUser(b, who).Success? && !PasswordMatches(b.users[who.value.username], oldPassword) ==>
      r == Failure(OldPasswordWrong)
    ensures r.Success? <==>
      && RequireUser(b, who).Success?
      && PasswordMatches(b.users[who.value.username], oldPassword)
      && newPassword.Some? && !JavaText.IsBlank(newPassword.value)
    ensures r.Success? ==>
      var k := who.value.username;
      r.value == b.(users := b.users[k := UpdatePassword(b.users[k], newPassword.value)])
    ensures Valid(b) && r.Success? ==> Valid(r.value)
  {
    match RequireUser(b, who)
    case Failure(e) => Failure(e)
    case Success(u) =>
      if !PasswordMatches(u, oldPassword) then Failure(OldPasswordWrong)
      else if newPassword.None? || JavaText.IsBlank(newPassword.value) then Failure(NewPasswordBlank)
      else Success(b.(users := b.users[who.value.username := UpdatePassword(u, newPassword.value)]))
  }

  /** After a password change the new password logs in and a different old
      one no longer does. */
  lemma ChangedPasswordAuthenticates(b: Bank, who: Option<User>, oldPassword: Option<string>, newPassword: string)
    requires Valid(b) && ChangePassword(b, who, oldPassword, Some(newPassword)).Success?
    ensures var b2 := ChangePassword(b, who, oldPassword, Some(newPassword)).value;
      var name := who.value.username;
      && Authenticate(b2, Some(name), Some(newPassword)).Some?
      && (oldPassword != Some(newPassword) ==> Authenticate(b2, Some(name), oldPassword).None?)
  {
    JavaText.TrimClean(who.value.username);
  }

  /** The users after one interest run at `rate`: nobody's balance drops,
      nothing but balances changes, and a validly filed user stays so. */
  function Credited(users: map<string, User>, rate: real): (r: map<string, User>)
    ensures r.Keys == users.Keys
    ensures forall k :: k in users ==>
      users[k].balance <= r[k].balance && r[k] == users[k].(balance := r[k].balance)
    ensures forall k :: k in users && (users[k].balance <= 0 || rate <= 0.0) ==> r[k] == users[k]
    ensures Valid(Bank(users, rate)) ==> Valid(Bank(r, rate))
  {
    map k | k in users :: ApplyInterest(users[k], rate).user
  }

  /** applyInterestToAllUsers: every user earns interest at the bank's rate;
      the answer says whether any balance changed. */
  method ApplyInterestToAllUsers(b: Bank) returns (changed: bool, next: Bank)
    ensures next == b.(users := Credited(b.users, b.interestRate))
    ensures changed <==> exists k :: k in b.users && ApplyInterest(b.users[k], b.interestRate).delta > 0
  {
    var rate := b.interestRate;
    var out := b.users;
    var remaining := b.users.Keys;
    changed := false;
    while remaining != {}
      invariant remaining <= b.users.Keys && out.Keys == b.users.Keys
      invariant forall k :: k in remaining ==> out[k] == b.users[k]
      invariant forall k :: k in b.users && k !in remaining ==> out[k] == ApplyInterest(b.users[k], rate).user
      invariant changed <==>
        exists k :: k in b.users && k !in remaining && ApplyInterest(b.users[k], rate).delta > 0
      decreases remaining
    {
      var k :| k in remaining;
      var accrual := ApplyInterest(out[k], rate);
      out := out[k := accrual.user];
      if accrual.delta > 0 {
        changed := true;
      }
      remaining := remaining - {k};
    }
    assert out == Credited(b.users, rate);
    next := b.(users := out);
  }
}
