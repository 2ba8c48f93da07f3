/** The customer record of the second console ATM: a gender used for the
    greeting and a fractional balance. */
module Atm2User {
  import opened Wrappers
  import JavaText

  datatype Gender = Male | Female | Unknown

  /** The honorific the greeting uses. */
  function Honorific(g: Gender): string {
    match g
    case Male => "先生"
    case Female => "女士"
    case Unknown => "用户"
  }

  /** The three honorifics differ, so the greeting identifies the gender. */
  lemma HonorificInjective(g1: Gender, g2: Gender)
    requires Honorific(g1) == Honorific(g2)
    ensures g1 == g2
  {
  }

  /** Gender.fromInput: the trimmed, lower-cased answer starting with 男 or
      m is male, with 女 or f female; everything else, null included, is
      unknown. */
  function FromInput(raw: Option<string>): (g: Gender)
    ensures raw.None? ==> g == Unknown
    ensures raw.Some? && JavaText.Trim(raw.value) == [] ==> g == Unknown
    ensures raw.Some? && |JavaText.Trim(raw.value)| > 0 ==>
      var c := JavaText.AsciiLower(JavaText.Trim(raw.value)[0]);
      && (g == Male <==> c == '男' || c == 'm')
      && (g == Female <==> c == '女' || c == 'f')
  {
    match raw
    case None => Unknown
    case Some(s) =>
      var t := JavaText.Trim(s);
      if |t| == 0 then Unknown
      else
        var c := JavaText.AsciiLower(t[0]);
        if c == '男' || c == 'm' then Male
        else if c == '女' || c == 'f' then Female
        else Unknown
  }

  /** An upper-case "M" is lower-cased before the comparison. */
  lemma FromInputUpperCase()
    ensures FromInput(Some("M")) == Male
  {
    JavaText.TrimClean("M");
    assert JavaText.AsciiLower('M') == 'm';
  }

  /** "女士" is female; "x" is unknown. */
  lemma FromInputOtherExamples()
    ensures FromInput(Some("女士")) == Female
    ensures FromInput(Some("x")) == Unknown
  {
    JavaText.TrimClean("女士");
    assert JavaText.Trim("女士")[0] == '女';
    JavaText.TrimClean("x");
    assert JavaText.Trim("x")[0] == 'x';
  }

  /** The creation time is a clock reading and is not modelled. */
  datatype User = User(username: string, name: string, gender: Gender, password: string, balance: real)

  /** A null gender stands for unknown. */
  function GenderOrUnknown(g: Option<Gender>): (r: Gender)
    ensures g.Some? ==> r == g.value
    ensures g.None? ==> r == Unknown
  {
    match g
    case None => Unknown
    case Some(x) => x
  }

  /** The full constructor: username and name trimmed, the balance
      max(0, opening balance). */
  function MakeUser(username: string, name: string, gender: Option<Gender>, password: string, balance: real)
    : (u: User)
    ensures u.username == JavaText.Trim(username) && u.name == JavaText.Trim(name)
    ensures u.gender == GenderOrUnknown(gender) && u.password == password
    ensures u.balance >= 0.0 && u.balance >= balance
    ensures balance >= 0.0 ==> u.balance == balance
    ensures balance < 0.0 ==> u.balance == 0.0
  {
    User(JavaText.Trim(username), JavaText.Trim(name), GenderOrUnknown(gender), password,
         if balance >= 0.0 then balance else 0.0)
  }

  /** The four-argument constructor opens with a zero balance. */
  function NewUser(username: string, name: string, gender: Option<Gender>, password: string): (u: User)
    ensures u.balance == 0.0 && u.username == JavaText.Trim(username)
  {
    MakeUser(username, name, gender, password, 0.0)
  }

  function SetName(u: User, name: string): (r: User)
    ensures r.name == JavaText.Trim(name) && r.(name := u.name) == u
  {
    u.(name := JavaText.Trim(name))
  }

  function SetGender(u: User, g: Option<Gender>): (r: User)
    ensures r.gender == GenderOrUnknown(g) && r.(gender := u.gender) == u
  {
    u.(gender := GenderOrUnknown(g))
  }

  function SetPassword(u: User, password: string): (r: User)
    ensures r.password == password && r.(password := u.password) == u
  {
    u.(password := password)
  }

  function IncreaseBalance(u: User, amount: real): (r: User)
    ensures r.balance == u.balance + amount && r.(balance := u.balance) == u
  {
    u.(balance := u.balance + amount)
  }

  function DecreaseBalance(u: User, amount: real): (r: User)
    ensures r.balance == u.balance - amount && r.(balance := u.balance) == u
  {
    u.(balance := u.balance - amount)
  }

  lemma DecreaseUndoesIncrease(u: User, amount: real)
    ensures DecreaseBalance(IncreaseBalance(u, amount), amount) == u
  {
    var v := IncreaseBalance(u, amount);
    assert v.(balance := v.balance - amount) == u;
  }
}
