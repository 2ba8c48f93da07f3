/** The shape both name rules share: words of one character class separated
    by gaps of another, the regular expression `W+(G+W+)*` (gaps may be
    runs) or `W+(GW+)*` (every gap a single character), matched against the
    whole string as `String.matches` does. */
module WordPattern {

  /** What a character is to the pattern. */
  datatype Kind = Word | Gap | Other

  /** The states of the matching automaton; Dead once no continuation can
      match any more. */
  datatype State = Start | InWord | InGap | Dead

  function Step(st: State, k: Kind, runs: bool): State {
    match st
    case Start => if k == Word then InWord else Dead
    case InWord => if k == Word then InWord else if k == Gap then InGap else Dead
    case InGap => if k == Word then InWord else if k == Gap && runs then InGap else Dead
    case Dead => Dead
  }

  /** The state after reading all of s. */
  function Run(kind: char -> Kind, runs: bool, s: string): State {
    if |s| == 0 then Start else Step(Run(kind, runs, s[..|s| - 1]), kind(s[|s| - 1]), runs)
  }

  /** `s.matches(pattern)`: the whole string is read and ends inside a word. */
  predicate Matches(kind: char -> Kind, runs: bool, s: string) {
    Run(kind, runs, s) == InWord
  }

  /** A prefix of some matching string: it starts with a word character,
      holds word and gap characters only, and, when gaps are single, never
      two gap characters in a row. */
  predicate Viable(kind: char -> Kind, runs: bool, s: string) {
    && |s| > 0 && kind(s[0]) == Word
    && (forall k :: 0 <= k < |s| ==> kind(s[k]) != Other)
    && (!runs ==> forall k :: 0 <= k < |s| - 1 && kind(s[k]) == Gap ==> kind(s[k + 1]) == Word)
  }

  /** The language of the pattern, described without the automaton: a
      viable string that ends with a word character. */
  predicate WordsAndGaps(kind: char -> Kind, runs: bool, s: string) {
    Viable(kind, runs, s) && kind(s[|s| - 1]) == Word
  }

  /** The automaton accepts exactly the strings of the pattern. */
  lemma MatchesIff(kind: char -> Kind, runs: bool, s: string)
    ensures Matches(kind, runs, s) <==> WordsAndGaps(kind, runs, s)
  {
    RunMeaning(kind, runs, s);
  }

  /** What each state says about the text read so far. */
  lemma {:induction false} RunMeaning(kind: char -> Kind, runs: bool, s: string)
    ensures Run(kind, runs, s) == Start <==> |s| == 0
    ensures Run(kind, runs, s) == InWord <==> WordsAndGaps(kind, runs, s)
    ensures Run(kind, runs, s) == InGap <==> Viable(kind, runs, s) && kind(s[|s| - 1]) == Gap
  {
    if |s| > 0 {
      var p := s[..|s| - 1];
      RunMeaning(kind, runs, p);
      ViableSnoc(kind, runs, p, s);
    }
  }

  /** A string is viable when it is a single word character, or a viable
      prefix extended by a word or gap character that does not make two
      single gaps meet. */
  lemma ViableSnoc(kind: char -> Kind, runs: bool, p: string, s: string)
    requires |s| > 0 && p == s[..|s| - 1]
    ensures Viable(kind, runs, s) <==>
      if |p| == 0 then kind(s[0]) == Word
      else
        && Viable(kind, runs, p) && kind(s[|s| - 1]) != Other
        && (!runs && kind(p[|p| - 1]) == Gap ==> kind(s[|s| - 1]) == Word)
  {
    if |p| > 0 && Viable(kind, runs, p) && kind(s[|s| - 1]) != Other
       && (!runs && kind(p[|p| - 1]) == Gap ==> kind(s[|s| - 1]) == Word) {
      assert forall k :: 0 <= k < |p| ==> s[k] == p[k];
    }
  }
}
