/** The customer record of the first console ATM: whole-unit balance,
    password compared exactly. */
module Atm1User {
  import opened Wrappers

  /** The creation time is a clock reading and is not modelled. */
  datatype User = User(username: string, name: string, gender: string, password: string, balance: int)

  /** The constructor: every new user starts with a zero balance. */
  function NewUser(username: string, name: string, gender: string, password: string): (u: User)
    ensures u.balance == 0
    ensures u.username == username && u.name == name && u.gender == gender && u.password == password
  {
    User(username, name, gender, password, 0)
  }

  function Credit(u: User, amount: int): (r: User)
    ensures r.balance == u.balance + amount
    ensures r.(balance := u.balance) == u
  {
    u.(balance := u.balance + amount)
  }

  function Debit(u: User, amount: int): (r: User)
    ensures r.balance == u.balance - amount
    ensures r.(balance := u.balance) == u
  {
    u.(balance := u.balance - amount)
  }

  lemma DebitUndoesCredit(u: User, amount: int)
    ensures Debit(Credit(u, amount), amount) == u
  {
    var c := Credit(u, amount);
    assert c.(balance := c.balance - amount) == u;
  }

  /** `Math.round` on a non-negative value: the nearest integer, a tie going
      up. */
  function Round(x: real): (n: int)
    requires x >= 0.0
    ensures n >= 0
    ensures 2.0 * (n as real) - 1.0 <= 2.0 * x < 2.0 * (n as real) + 1.0
  {
    (x + 0.5).Floor
  }

  /** The amount applyInterest credits and the user after it. */
  datatype Accrual = Accrual(delta: int, user: User)

  /** applyInterest: nothing for a non-positive balance or rate; otherwise
      balance × rate rounded to a whole unit, credited only when positive. */
  function ApplyInterest(u: User, rate: real): (r: Accrual)
    ensures u.balance <= 0 || rate <= 0.0 ==> r == Accrual(0, u)
    ensures r.delta >= 0 && r.user == u.(balance := u.balance + r.delta)
    ensures u.balance > 0 && rate > 0.0 ==>
      2.0 * (r.delta as real) - 1.0 <= 2.0 * (u.balance as real) * rate < 2.0 * (r.delta as real) + 1.0
  {
    if u.balance <= 0 || rate <= 0.0 then Accrual(0, u)
    else
      var interest := Round(u.balance as real * rate);
      if interest > 0 then Accrual(interest, Credit(u, interest)) else Accrual(interest, u)
  }

  /** 1 000 at 2 % earns 20; 10 at 2 % earns nothing (0.2 rounds to 0). */
  lemma InterestExamples()
    ensures ApplyInterest(NewUser("a", "A", "男", "p").(balance := 1000), 0.02).delta == 20
    ensures ApplyInterest(NewUser("a", "A", "男", "p").(balance := 10), 0.02).delta == 0
  {
    assert (1000 as real * 0.02 + 0.5).Floor == 20;
    assert (10 as real * 0.02 + 0.5).Floor == 0;
  }

  /** passwordMatches: exact equality with the raw text; null never
      matches, since the stored password is never null. */
  predicate PasswordMatches(u: User, raw: Option<string>) {
    raw == Some(u.password)
  }

  function UpdatePassword(u: User, newPassword: string): (r: User)
    ensures PasswordMatches(r, Some(newPassword))
    ensures r.(password := u.password) == u
  {
    u.(password := newPassword)
  }
}
