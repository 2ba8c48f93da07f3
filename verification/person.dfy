/** The person record built from two command-line arguments: a name of
    CJK (U+4E00..U+9FA5) or ASCII-letter words and an age of 0..150 written
    in plain decimal digits. Each validator reports which of its rules
    refused the input first; the message it prints is left out. */
module Person {
  import opened Wrappers
  import JavaText
  import DecimalText
  import WordPattern
  import Money

  datatype Person = Person(name: string, age: int)

  const MinAge: int := 0
  const MaxAge: int := 150
  const MinNameLength: int := 1
  const MaxNameLength: int := 50

  // ---------------------------------------------------------------------
  // Names

  /** The classes of NAME_PATTERN: the block U+4E00..U+9FA5 and the ASCII
      letters make words, `\s` makes the gaps between them. */
  function NameKind(c: char): WordPattern.Kind {
    if ('\U{4E00}' <= c <= '\U{9FA5}') || JavaText.IsAsciiLetter(c) then WordPattern.Word
    else if JavaText.IsRegexSpace(c) then WordPattern.Gap
    else WordPattern.Other
  }

  /** `name.matches(NAME_PATTERN)`, the pattern `W+(\s+W+)*`. */
  predicate MatchesNamePattern(name: string) {
    WordPattern.Matches(NameKind, true, name)
  }

  /** `name.contains("  ")`. */
  predicate HasDoubleSpace(s: string) {
    exists k :: 0 <= k < |s| - 1 && s[k] == ' ' && s[k + 1] == ' '
  }

  /** `s.replaceAll("\\s+", "")`: every `\s` character removed. */
  function RemoveSpaces(s: string): (r: string)
    ensures |r| <= |s|
    ensures |r| == 0 <==> forall k :: 0 <= k < |s| ==> JavaText.IsRegexSpace(s[k])
  {
    if |s| == 0 then []
    else
      var rest := RemoveSpaces(s[1..]);
      assert forall k :: 0 <= k < |s| - 1 ==> s[1..][k] == s[k + 1];
      if JavaText.IsRegexSpace(s[0]) then rest else [s[0]] + rest
  }

  /** The rule of `isValidName` that refuses a name first, in the order the
      source tests them. */
  datatype NameCheck =
    | NameValid
    | NameEmpty
    | NameLength
    | NamePattern
    | NameDoubleSpace
    | NameUntrimmed
    | NameOnlySpaces

  /** `isValidName`. A name that matches the pattern starts and ends with a
      word character, so the last two rules never refuse anything. */
  function CheckName(name: string): (r: NameCheck)
    ensures r != NameUntrimmed && r != NameOnlySpaces
    ensures r == NameEmpty <==> |name| == 0
  {
    if |name| == 0 then NameEmpty
    else if JavaText.Utf16Length(name) < MinNameLength || JavaText.Utf16Length(name) > MaxNameLength then
      NameLength
    else if !MatchesNamePattern(name) then NamePattern
    else if HasDoubleSpace(name) then NameDoubleSpace
    else
      PatternTrimmed(name);
      if name != JavaText.Trim(name) then NameUntrimmed
      else if |RemoveSpaces(name)| == 0 then NameOnlySpaces
      else NameValid
  }

  predicate IsValidName(name: string) {
    CheckName(name) == NameValid
  }

  /** A name of the pattern is its own trim and is not all white space. */
  lemma PatternTrimmed(name: string)
    requires MatchesNamePattern(name)
    ensures JavaText.Trim(name) == name && |RemoveSpaces(name)| > 0
  {
    WordPattern.MatchesIff(NameKind, true, name);
    assert NameKind(name[0]) == WordPattern.Word && NameKind(name[|name| - 1]) == WordPattern.Word;
    assert JavaText.IsTrimmed(name);
    JavaText.TrimClean(name);
    assert !JavaText.IsRegexSpace(name[0]);
  }

  /** The accepted names are exactly those of 1..50 characters made of
      words and white-space runs (the pattern's language) without two
      consecutive spaces. */
  lemma ValidNameIff(name: string)
    ensures IsValidName(name) <==>
      && MinNameLength <= |name| <= MaxNameLength
      && WordPattern.WordsAndGaps(NameKind, true, name)
      && !HasDoubleSpace(name)
  {
    WordPattern.MatchesIff(NameKind, true, name);
    if WordPattern.WordsAndGaps(NameKind, true, name) {
      assert forall k :: 0 <= k < |name| ==> !JavaText.IsSupplementary(name[k]) by {
        forall k | 0 <= k < |name| ensures !JavaText.IsSupplementary(name[k]) {
          assert NameKind(name[k]) != WordPattern.Other;
        }
      }
    }
  }

  /** A white-space run may hold a tab between spaces: "张 \t 三" is a
      valid name. */
  lemma TabInRunAccepted()
    ensures IsValidName("张 \t 三")
  {
    var s := "张 \t 三";
    assert s[0] == '张' && s[1] == ' ' && s[2] == '\t' && s[3] == ' ' && s[4] == '三';
    assert forall k :: 0 <= k < |s| ==> NameKind(s[k]) != WordPattern.Other;
    assert !HasDoubleSpace(s);
    ValidNameIff(s);
  }

  /** Two spaces in a row are refused although the pattern allows them. */
  lemma DoubleSpaceRefused()
    ensures CheckName("张  三") == NameDoubleSpace
  {
    var s := "张  三";
    assert s[0] == '张' && s[1] == ' ' && s[2] == ' ' && s[3] == '三';
    assert forall k :: 0 <= k < |s| ==> NameKind(s[k]) != WordPattern.Other;
    assert HasDoubleSpace(s);
    WordPattern.MatchesIff(NameKind, true, s);
  }

  // ---------------------------------------------------------------------
  // Ages

  /** The rule of `isValidAge` that refuses an age string first. AgeTooLow
      stands for the `age < MIN_AGE` test, which nothing reaches. */
  datatype AgeCheck =
    | AgeValid
    | AgeEmpty
    | AgeNotDigits
    | AgeLeadingZero
    | AgeTooLow
    | AgeTooHigh
    | AgeOverflow

  /** `isValidAge`: `^\d+$`, no leading zero, then `Integer.parseInt`
      (whose NumberFormatException on a value beyond Integer.MAX_VALUE is
      caught) and the range 0..150. */
  function CheckAge(ageStr: string): (r: AgeCheck)
    ensures r != AgeTooLow
    ensures r == AgeOverflow ==> |ageStr| >= 10
  {
    if |ageStr| == 0 then AgeEmpty
    else if !DecimalText.AllDigits(ageStr) then AgeNotDigits
    else if |ageStr| > 1 && ageStr[0] == '0' then AgeLeadingZero
    else
      match DecimalText.ParseInt(ageStr)
      case None =>
        ShortFits(ageStr);
        AgeOverflow
      case Some(age) =>
        if age < MinAge then AgeTooLow else if age > MaxAge then AgeTooHigh else AgeValid
  }

  predicate IsValidAge(ageStr: string) {
    CheckAge(ageStr) == AgeValid
  }

  /** Nine digits or fewer always fit in an int. */
  lemma ShortFits(s: string)
    requires DecimalText.AllDigits(s) && |s| > 0
    ensures DecimalText.Value(s) > DecimalText.IntMax ==> |s| >= 10
  {
    ValueBelow(s);
    if |s| < 10 {
      PowMonotone(|s|, 9);
    }
  }

  /** A digit string of length n denotes less than 10^n. */
  lemma {:induction false} ValueBelow(s: string)
    requires DecimalText.AllDigits(s)
    ensures DecimalText.Value(s) < Money.Pow10(|s|)
  {
    if |s| > 0 {
      ValueBelow(s[..|s| - 1]);
    }
  }

  lemma {:induction false} PowMonotone(m: nat, n: nat)
    requires m <= n
    ensures Money.Pow10(m) <= Money.Pow10(n)
  {
    if m < n {
      PowMonotone(m, n - 1);
    }
  }

  /** The accepted ages are exactly the non-empty digit strings without a
      leading zero whose value is at most 150. */
  lemma ValidAgeIff(s: string)
    ensures IsValidAge(s) <==>
      && |s| > 0 && DecimalText.AllDigits(s) && (|s| > 1 ==> s[0] != '0')
      && DecimalText.Value(s) <= MaxAge
  {
  }

  /** Round trip: the accepted ages are the decimal renderings of 0..150. */
  lemma AgeRoundTrip(s: string, n: nat)
    ensures IsValidAge(s) ==> s == DecimalText.Digits(DecimalText.Value(s))
    ensures n <= MaxAge ==> IsValidAge(DecimalText.Digits(n)) && DecimalText.Value(DecimalText.Digits(n)) == n
  {
    ValidAgeIff(s);
    if IsValidAge(s) {
      DecimalText.DigitsOfValue(s);
    }
    DecimalText.ValueOfDigits(n);
    ValidAgeIff(DecimalText.Digits(n));
  }

  /** More than three characters are never a valid age: a leading zero or
      a value of at least 1000. */
  lemma LongAgeRejected(s: string)
    requires |s| > 3
    ensures !IsValidAge(s)
  {
    ValidAgeIff(s);
    if DecimalText.AllDigits(s) && s[0] != '0' {
      DecimalText.LeadingDigitBound(s);
      PowMonotone(3, |s| - 1);
    }
  }

  // ---------------------------------------------------------------------
  // The record

  /** `createFromArgs`: fewer than two arguments, or an invalid trimmed name
      or age, give null; otherwise the trimmed name and the age's value. */
  function CreateFromArgs(args: seq<string>): (r: Option<Person>)
    ensures r.Some? <==>
      |args| >= 2 && IsValidName(JavaText.Trim(args[0])) && IsValidAge(JavaText.Trim(args[1]))
    ensures r.Some? ==>
      && r.value.name == JavaText.Trim(args[0])
      && MinAge <= r.value.age <= MaxAge
      && JavaText.Trim(args[1]) == DecimalText.Digits(r.value.age)
  {
    if |args| < 2 then None
    else
      var name := JavaText.Trim(args[0]);
      var ageStr := JavaText.Trim(args[1]);
      if !IsValidName(name) || !IsValidAge(ageStr) then None
      else
        ValidAgeIff(ageStr);
        AgeRoundTrip(ageStr, 0);
        Some(Person(name, DecimalText.ParseInt(ageStr).value))
  }
}
