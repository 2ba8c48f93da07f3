/** The controller of the second console ATM. Refusals are answered with
    null or false instead of exceptions, and the interest run is driven by
    a background thread, modelled here as a plain call. */
module Atm2Bank {
  import opened Wrappers
  import JavaText
  import opened Atm2User

  datatype Bank = Bank(users: map<string, User>, interestRate: real)

  /** An operation's return value with the bank after it. */
  datatype Reply<T> = Reply(answer: T, bank: Bank)

  /** A new bank: no users yet, rate 0.01 %. */
  const Initial: Bank := Bank(map[], 0.0001)

  /** Every user is filed under its own, trimmed, username; no balance is
      negative and neither is the rate. */
  predicate Valid(b: Bank) {
    && b.interestRate >= 0.0
    && forall k :: k in b.users ==>
      b.users[k].username == k && JavaText.IsTrimmed(k) && b.users[k].balance >= 0.0
  }

  lemma InitialValid()
    ensures Valid(Initial)
  {
  }

  /** setInterestRate: a negative rate is ignored. */
  function SetInterestRate(b: Bank, rate: real): (r: Bank)
    ensures r.users == b.users
    ensures rate >= 0.0 ==> r.interestRate == rate
    ensures rate < 0.0 ==> r.interestRate == b.interestRate
    ensures Valid(b) ==> Valid(r)
  {
    if rate >= 0.0 then b.(interestRate := rate) else b
  }

  /** The default administrator, as the full constructor builds it from
      already trimmed texts. */
  const Admin: User := User("admin", "管理员", Unknown, "123456", 0.0)

  lemma AdminConstructed()
    ensures Admin == MakeUser("admin", "管理员", Some(Unknown), "123456", 0.0)
  {
    JavaText.TrimClean("admin");
    JavaText.TrimClean("管理员");
  }

  /** The same default-administrator rule as the first ATM program's bank;
      each program has its own copy. */
  function EnsureDefaultAdmin(users: map<string, User>): (r: map<string, User>)
    ensures "admin" in r
    ensures "admin" in users ==> r == users
    ensures "admin" !in users ==> r == users["admin" := Admin]
  {
    if "admin" in users then users else users["admin" := Admin]
  }

  /** loadUsers: the users read from the storage file replace the current
      ones (none when the file is missing or unreadable), completed by the
      default administrator. */
  function LoadUsers(b: Bank, loaded: map<string, User>): (r: Bank)
    ensures "admin" in r.users && r.interestRate == b.interestRate
    ensures forall k :: k in loaded ==> k in r.users && r.users[k] == loaded[k]
    ensures forall k :: k in r.users ==> k in loaded || k == "admin"
    ensures "admin" !in loaded ==> r.users["admin"] == Admin && Admin.password == "123456"
    ensures Valid(Bank(loaded, b.interestRate)) ==> Valid(r)
  {
    assert JavaText.IsTrimmed("admin");
    Bank(EnsureDefaultAdmin(loaded), b.interestRate)
  }

  function UserExists(b: Bank, username: Option<string>): (r: bool)
    ensures r <==> username.Some? && JavaText.Trim(username.value) in b.users
  {
    username.Some? && JavaText.Trim(username.value) in b.users
  }

  /** registerUser as written: the blank test is `isBlank` (Unicode white
      space) but the key is the `trim` (every code point up to U+0020), so a
      username made only of control characters such as U+0001 is not blank
      and is filed under the empty key. */
  function RegisterUserAsWritten(b: Bank, username: Option<string>, name: string, gender: Option<Gender>,
                                 password: string): (r: Reply<Option<User>>)
    ensures r.answer.None? ==> r.bank == b
    ensures r.answer.Some? <==>
      username.Some? && !JavaText.IsBlank(username.value) && JavaText.Trim(username.value) !in b.users
    ensures r.answer.Some? ==>
      var key := JavaText.Trim(username.value);
      && r.answer.value == NewUser(key, name, gender, password)
      && r.bank == b.(users := b.users[key := r.answer.value])
  {
    if username.None? || JavaText.IsBlank(username.value) then Reply(None, b)
    else
      var normalized := JavaText.Trim(username.value);
      if normalized in b.users then Reply(None, b)
      else
        var user := NewUser(normalized, name, gender, password);
        JavaText.TrimIdempotent(username.value);
        Reply(Some(user), b.(users := b.users[user.username := user]))
  }

  /** U+0001 passes the blank test and registers the empty username. */
  lemma ControlCharacterRegistersEmptyName()
    ensures var r := RegisterUserAsWritten(Initial, Some("\U{1}"), "n", None, "p");
      r.answer.Some? && r.answer.value.username == [] && [] in r.bank.users
  {
    assert !JavaText.IsWhitespace('\U{1}');
    assert JavaText.Trim("\U{1}") == [] by {
      assert JavaText.DropLeading("\U{1}") == [] by {
        assert "\U{1}"[1..] == [];
      }
    }
  }

  /** registerUser with the test the rest of the code relies on: a username
      that is blank or trims to nothing is refused. */
  function RegisterUser(b: Bank, username: Option<string>, name: string, gender: Option<Gender>,
                        password: string): (r: Reply<Option<User>>)
    ensures r.answer.None? ==> r.bank == b
    ensures r.answer.Some? <==>
      && username.Some? && !JavaText.IsBlank(username.value)
      && JavaText.Trim(username.value) != [] && JavaText.Trim(username.value) !in b.users
    ensures r.answer.Some? ==>
      var key := JavaText.Trim(username.value);
      && |key| > 0
      && r.answer.value == NewUser(key, name, gender, password)
      && r.bank == b.(users := b.users[key := r.answer.value])
    ensures Valid(b) && r.answer.Some? ==> Valid(r.bank)
  {
    if username.Some? && JavaText.Trim(username.value) == [] then Reply(None, b)
    else
      var r := RegisterUserAsWritten(b, username, name, gender, password);
      if r.answer.Some? && Valid(b) then
        JavaText.TrimIdempotent(username.value);
        AddUserValid(b, JavaText.Trim(username.value), r.answer.value);
        r
      else r
  }

  /** Filing a user with a trimmed username under that username and a
      non-negative balance keeps the bank valid. */
  lemma AddUserValid(b: Bank, key: string, u: User)
    requires Valid(b) && JavaText.IsTrimmed(key) && u.username == key && u.balance >= 0.0
    ensures Valid(b.(users := b.users[key := u]))
  {
  }

  /** Wherever the username keeps a character after trimming, the two
      versions agree. */
  lemma RegisterAgreesOnNonEmptyKeys(b: Bank, username: string, name: string, gender: Option<Gender>,
                                     password: string)
    requires JavaText.Trim(username) != []
    ensures RegisterUser(b, Some(username), name, gender, password)
         == RegisterUserAsWritten(b, Some(username), name, gender, password)
  {
  }

  /** login: the user under the trimmed username whose password equals the
      given one. */
  function Login(b: Bank, username: Option<string>, password: Option<string>): (r: Option<User>)
    ensures r.Some? <==>
      username.Some? && password.Some? && JavaText.Trim(username.value) in b.users
      && b.users[JavaText.Trim(username.value)].password == password.value
    ensures r.Some? ==> r.value == b.users[JavaText.Trim(username.value)]
  {
    if username.None? || password.None? then None
    else
      var key := JavaText.Trim(username.value);
      if key in b.users && password.value == b.users[key].password then Some(b.users[key]) else None
  }

  /** A registered user logs in with the username as typed. */
  lemma RegisteredUserLogsIn(b: Bank, username: string, name: string, gender: Option<Gender>, password: string)
    requires RegisterUser(b, Some(username), name, gender, password).answer.Some?
    ensures var r := RegisterUser(b, Some(username), name, gender, password);
      Login(r.bank, Some(username), Some(password)) == r.answer
  {
  }

  function GetUser(b: Bank, username: Option<string>): (r: Option<User>)
    ensures r.Some? <==> username.Some? && JavaText.Trim(username.value) in b.users
    ensures r.Some? ==> r.value == b.users[JavaText.Trim(username.value)]
  {
    if username.None? || JavaText.Trim(username.value) !in b.users then None
    else Some(b.users[JavaText.Trim(username.value)])
  }

  /** resolveUser: the stored user under the handle's (untrimmed) username. */
  function ResolveUser(b: Bank, who: Option<User>): (r: Option<User>)
    ensures r.Some? <==> who.Some? && who.value.username in b.users
    ensures r.Some? ==> r.value == b.users[who.value.username]
  {
    if who.None? || who.value.username !in b.users then None else Some(b.users[who.value.username])
  }

  /** queryBalance: zero for an unknown user. */
  function QueryBalance(b: Bank, who: Option<User>): (r: real)
    ensures ResolveUser(b, who).None? ==> r == 0.0
    ensures ResolveUser(b, who).Some? ==> r == ResolveUser(b, who).value.balance
    ensures Valid(b) ==> r >= 0.0
  {
    match ResolveUser(b, who)
    case None => 0.0
    case Some(u) => u.balance
  }

  function Deposit(b: Bank, who: Option<User>, amount: int): (r: Reply<bool>)
    ensures r.answer <==> ResolveUser(b, who).Some? && amount > 0
    ensures !r.answer ==> r.bank == b
    ensures r.answer ==>
      var k := who.value.username;
      r.bank == b.(users := b.users[k := IncreaseBalance(b.users[k], amount as real)])
    ensures Valid(b) && r.answer ==> Valid(r.bank)
  {
    match ResolveUser(b, who)
    case None => Reply(false, b)
    case Some(u) =>
      if amount <= 0 then Reply(false, b)
      else Reply(true, b.(users := b.users[who.value.username := IncreaseBalance(u, amount as real)]))
  }

  /** withdrawl: refused for an unknown user, a non-positive amount and an
      amount above the balance. */
  function Withdrawl(b: Bank, who: Option<User>, amount: int): (r: Reply<bool>)
    ensures r.answer <==>
      ResolveUser(b, who).Some? && amount > 0 && amount as real <= b.users[who.value.username].balance
    ensures !r.answer ==> r.bank == b
    ensures r.answer ==>
      var k := who.value.username;
      r.bank == b.(users := b.users[k := DecreaseBalance(b.users[k], amount as real)])
    ensures Valid(b) && r.answer ==> Valid(r.bank)
  {
    match ResolveUser(b, who)
    case None => Reply(false, b)
    case Some(u) =>
      if amount <= 0 || amount as real > u.balance then Reply(false, b)
      else Reply(true, b.(users := b.users[who.value.username := DecreaseBalance(u, amount as real)]))
  }

  /** Withdrawing what was just deposited succeeds and restores the bank. */
  lemma WithdrawlUndoesDeposit(b: Bank, who: Option<User>, amount: int)
    requires Valid(b) && Deposit(b, who, amount).answer
    ensures Withdrawl(Deposit(b, who, amount).bank, who, amount) == Reply(true, b)
  {
    var k := who.value.username;
    DecreaseUndoesIncrease(b.users[k], amount as real);
    var b2 := Deposit(b, who, amount).bank;
    assert b2.users[k := DecreaseBalance(b2.users[k], amount as real)] == b.users;
  }

  /** changePassword: a null or blank new password is refused before the
      user is looked up; then the old password must equal the stored one. */
  function ChangePassword(b: Bank, who: Option<User>, oldPassword: Option<string>, newPassword: Option<string>)
    : (r: Reply<bool>)
    ensures newPassword.None? || JavaText.IsBlank(newPassword.value) ==> !r.answer
    ensures r.answer <==>
      && newPassword.Some? && !JavaText.IsBlank(newPassword.value)
      && ResolveUser(b, who).Some? && oldPassword == Some(b.users[who.value.username].password)
    ensures !r.answer ==> r.bank == b
    ensures r.answer ==>
      var k := who.value.username;
      r.bank == b.(users := b.users[k := SetPassword(b.users[k], newPassword.value)])
    ensures Valid(b) && r.answer ==> Valid(r.bank)
  {
    if newPassword.None? || JavaText.IsBlank(newPassword.value) then Reply(false, b)
    else
      match ResolveUser(b, who)
      case None => Reply(false, b)
      case Some(u) =>
        if oldPassword == Some(u.password) then
          Reply(true, b.(users := b.users[who.value.username := SetPassword(u, newPassword.value)]))
        else Reply(false, b)
  }

  /** After a password change the new password logs in and a different old
      one no longer does. */
  lemma ChangedPasswordLogsIn(b: Bank, who: Option<User>, oldPassword: Option<string>, newPassword: string)
    requires Valid(b) && ChangePassword(b, who, oldPassword, Some(newPassword)).answer
    ensures var b2 := ChangePassword(b, who, oldPassword, Some(newPassword)).bank;
      var name := who.value.username;
      && Login(b2, Some(name), Some(newPassword)).Some?
      && (oldPassword != Some(newPassword) ==> Login(b2, Some(name), oldPassword).None?)
  {
    JavaText.TrimClean(who.value.username);
  }

  /** One user's share of an interest run: a positive balance grows by
      balance × rate. */
  function Accrued(u: User, rate: real): (r: User)
    ensures rate > 0.0 && u.balance > 0.0 ==> r.balance == u.balance * (1.0 + rate)
    ensures rate <= 0.0 || u.balance <= 0.0 ==> r == u
    ensures r == u.(balance := r.balance) && u.balance <= r.balance
  {
    if rate > 0.0 && u.balance > 0.0 then
      var interest := u.balance * rate;
      PositiveProduct(u.balance, rate);
      IncreaseBalance(u, interest)
    else u
  }

  function Credited(users: map<string, User>, rate: real): (r: map<string, User>)
    ensures r.Keys == users.Keys
    ensures forall k :: k in users ==> r[k] == Accrued(users[k], rate)
  {
    map k | k in users :: Accrued(users[k], rate)
  }

  /** An interest run keeps a valid bank valid. */
  lemma CreditedValid(b: Bank, rate: real)
    requires Valid(b)
    ensures Valid(b.(users := Credited(b.users, rate)))
  {
    var c := Credited(b.users, rate);
    forall k | k in c
      ensures c[k].username == k && JavaText.IsTrimmed(k) && c[k].balance >= 0.0
    {
      assert c[k] == Accrued(b.users[k], rate);
    }
  }

  /** applyInterestToAllUsers: with a positive rate, every positive balance
      earns balance × rate; a non-positive rate changes nothing. */
  method ApplyInterestToAllUsers(b: Bank, rate: real) returns (next: Bank)
    ensures rate <= 0.0 ==> next == b
    ensures next == b.(users := Credited(b.users, rate))
  {
    if rate <= 0.0 {
      assert Credited(b.users, rate) == b.users;
      return b;
    }
    var out := b.users;
    var remaining := b.users.Keys;
    while remaining != {}
      invariant Crediting(b.users, rate, out, remaining)
      decreases remaining
    {
      var k :| k in remaining;
      out := CreditOne(b.users, rate, out, remaining, k);
      remaining := remaining - {k};
    }
    CreditingDone(b.users, rate, out);
    next := b.(users := out);
  }

  /** What the interest loop keeps: the users still to visit are as they
      were, the visited ones have been credited. */
  predicate Crediting(users: map<string, User>, rate: real, out: map<string, User>, remaining: set<string>) {
    && remaining <= users.Keys && out.Keys == users.Keys
    && (forall k :: k in remaining ==> out[k] == users[k])
    && (forall k :: k in users && k !in remaining ==> out[k] == Accrued(users[k], rate))
  }

  /** One round of the interest loop: the user k is credited. */
  method CreditOne(users: map<string, User>, rate: real, out0: map<string, User>, remaining: set<string>,
                   k: string) returns (out: map<string, User>)
    requires rate > 0.0 && Crediting(users, rate, out0, remaining) && k in remaining
    ensures Crediting(users, rate, out, remaining - {k})
  {
    var u := out0[k];
    if u.balance > 0.0 {
      var interest := u.balance * rate;
      PositiveProduct(u.balance, rate);
      if interest > 0.0 {
        u := IncreaseBalance(u, interest);
      }
    }
    assert u == Accrued(users[k], rate);
    out := out0[k := u];
    CreditedStep(users, rate, out0, remaining, k, out);
  }

  lemma PositiveProduct(x: real, y: real)
    requires x > 0.0 && y > 0.0
    ensures x * y > 0.0
  {
  }

  /** Replacing the entry of k by its credited value moves k from the
      users still to visit to the visited ones. */
  lemma CreditedStep(users: map<string, User>, rate: real, out0: map<string, User>, remaining: set<string>,
                     k: string, out: map<string, User>)
    requires Crediting(users, rate, out0, remaining) && k in remaining
    requires out == out0[k := Accrued(users[k], rate)]
    ensures Crediting(users, rate, out, remaining - {k})
  {
  }

  lemma CreditingDone(users: map<string, User>, rate: real, out: map<string, User>)
    requires Crediting(users, rate, out, {})
    ensures out == Credited(users, rate)
  {
  }
}
