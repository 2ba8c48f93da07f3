/** The student information system: students added through three checked
    inputs under a limit of MAX students, each given the next id of a
    counter; the ranking by Java score; and the file-suffix normalisation of
    the file-sorting menu. Every IllegalArgumentException or
    IllegalStateException a check throws is a `Failure`. */
module Sis {
  import opened Wrappers
  import JavaText
  import WordPattern

  const Max: int := 20

  datatype Student = Student(id: int, name: string, gender: string, javaScore: int)

  /** The student list and the id counter. */
  datatype Sis = Sis(counter: int, students: seq<Student>)

  datatype SisError = NameInvalid | GenderInvalid | ScoreOutOfRange | StudentLimitReached

  const Empty: Sis := Sis(0, [])

  // ---------------------------------------------------------------------
  // The checks

  /** `\p{IsHan}`: the code points of the Han script (Unicode 15.0, the
      character data of Java 21). */
  predicate IsHan(c: char) {
    || ('\U{2E80}' <= c <= '\U{2E99}') || ('\U{2E9B}' <= c <= '\U{2EF3}')
    || ('\U{2F00}' <= c <= '\U{2FD5}')
    || c == '\U{3005}' || c == '\U{3007}'
    || ('\U{3021}' <= c <= '\U{3029}') || ('\U{3038}' <= c <= '\U{303B}')
    || ('\U{3400}' <= c <= '\U{4DBF}') || ('\U{4E00}' <= c <= '\U{9FFF}')
    || ('\U{F900}' <= c <= '\U{FA6D}') || ('\U{FA70}' <= c <= '\U{FAD9}')
    || c == '\U{16FE2}' || c == '\U{16FE3}' || ('\U{16FF0}' <= c <= '\U{16FF1}')
    || ('\U{20000}' <= c <= '\U{2A6DF}') || ('\U{2A700}' <= c <= '\U{2B739}')
    || ('\U{2B740}' <= c <= '\U{2B81D}') || ('\U{2B820}' <= c <= '\U{2CEA1}')
    || ('\U{2CEB0}' <= c <= '\U{2EBE0}') || ('\U{2F800}' <= c <= '\U{2FA1D}')
    || ('\U{30000}' <= c <= '\U{3134A}') || ('\U{31350}' <= c <= '\U{323AF}')
  }

  /** The classes of checkName's pattern `[\p{IsHan}a-zA-Z]+( [\p{IsHan}a-zA-Z]+)*`:
      Han and ASCII letters make words, a single space separates them. */
  function NameKind(c: char): WordPattern.Kind {
    if IsHan(c) || JavaText.IsAsciiLetter(c) then WordPattern.Word
    else if c == ' ' then WordPattern.Gap
    else WordPattern.Other
  }

  /** `checkName`. */
  function CheckName(name: string): (r: Result<string, SisError>)
    ensures r.Success? ==> r.value == name
    ensures r.Failure? ==> r.error == NameInvalid
    ensures r.Success? <==> WordPattern.WordsAndGaps(NameKind, false, name)
  {
    WordPattern.MatchesIff(NameKind, false, name);
    if WordPattern.Matches(NameKind, false, name) then Success(name) else Failure(NameInvalid)
  }

  /** Words of Han or ASCII letters separated by single spaces pass:
      "Li Lei" and "张三". */
  lemma NamesAccepted()
    ensures CheckName("Li Lei").Success? && CheckName("张三").Success?
  {
    var a, b := "Li Lei", "张三";
    assert a[0] == 'L' && a[1] == 'i' && a[2] == ' ' && a[3] == 'L' && a[4] == 'e' && a[5] == 'i';
    assert forall k :: 0 <= k < |a| ==> NameKind(a[k]) != WordPattern.Other;
    assert b[0] == '张' && b[1] == '三';
    assert forall k :: 0 <= k < |b| ==> NameKind(b[k]) == WordPattern.Word;
  }

  /** Two spaces in a row, a leading space and a digit are refused:
      "Li  Lei", " Li" and "Li3". */
  lemma NamesRefused()
    ensures CheckName("Li  Lei").Failure? && CheckName(" Li").Failure? && CheckName("Li3").Failure?
  {
    var c, d, e := "Li  Lei", " Li", "Li3";
    assert c[2] == ' ' && c[3] == ' ';
    assert d[0] == ' ';
    assert NameKind(e[2]) == WordPattern.Other;
  }

  /** `checkGender`. */
  function CheckGender(gender: string): (r: Result<string, SisError>)
    ensures r.Success? <==> gender == "男" || gender == "女"
    ensures r.Success? ==> r.value == gender
    ensures r.Failure? ==> r.error == GenderInvalid
  {
    if gender != "男" && gender != "女" then Failure(GenderInvalid) else Success(gender)
  }

  /** `checkScore`. */
  function CheckScore(score: int): (r: Result<int, SisError>)
    ensures r.Success? <==> 0 <= score <= 100
    ensures r.Success? ==> r.value == score
    ensures r.Failure? ==> r.error == ScoreOutOfRange
  {
    if score < 0 || score > 100 then Failure(ScoreOutOfRange) else Success(score)
  }

  /** `checkStudentCount`: refuses once MAX students are listed. */
  function CheckStudentCount(s: Sis): (r: Result<Sis, SisError>)
    ensures r.Success? <==> |s.students| < Max
    ensures r.Success? ==> r.value == s
    ensures r.Failure? ==> r.error == StudentLimitReached
  {
    if |s.students| >= Max then Failure(StudentLimitReached) else Success(s)
  }

  // ---------------------------------------------------------------------
  // Adding students

  /** A student as the three checks admit it. */
  predicate Admissible(st: Student) {
    && WordPattern.WordsAndGaps(NameKind, false, st.name)
    && (st.gender == "男" || st.gender == "女")
    && 0 <= st.javaScore <= 100
  }

  /** What adding and ranking keep: the counter counts the students, who
      number at most MAX, carry the distinct ids 1..counter and were all
      admitted by the checks. */
  predicate Valid(s: Sis) {
    && s.counter == |s.students| <= Max
    && (forall i :: 0 <= i < |s.students| ==> 1 <= s.students[i].id <= s.counter)
    && (forall i, j :: 0 <= i < j < |s.students| ==> s.students[i].id != s.students[j].id)
    && (forall i :: 0 <= i < |s.students| ==> Admissible(s.students[i]))
  }

  lemma EmptyValid()
    ensures Valid(Empty)
  {
  }

  /** `inputStudent`, with the lines read by `getValidString` (trimmed) and
      the score read by `getValidInt`: name, gender and score are checked in
      that order, then the count; the counter is incremented only once every
      check has passed, and the new student gets its new value. A failed
      input check stands for the prompt being repeated. */
  function InputStudent(s: Sis, nameLine: string, genderLine: string, score: int): (r: Result<Sis, SisError>)
    ensures var name, gender := JavaText.Trim(nameLine), JavaText.Trim(genderLine);
      && (CheckName(name).Failure? ==> r == Failure(NameInvalid))
      && (CheckName(name).Success? && CheckGender(gender).Failure? ==> r == Failure(GenderInvalid))
      && (CheckName(name).Success? && CheckGender(gender).Success? && CheckScore(score).Failure? ==>
            r == Failure(ScoreOutOfRange))
      && (r.Success? <==>
            CheckName(name).Success? && CheckGender(gender).Success? && CheckScore(score).Success?
            && |s.students| < Max)
      && (r.Success? ==> r.value == Sis(s.counter + 1, s.students + [Student(s.counter + 1, name, gender, score)]))
  {
    var name := JavaText.Trim(nameLine);
    var gender := JavaText.Trim(genderLine);
    match CheckName(name)
    case Failure(e) => Failure(e)
    case Success(_) =>
      match CheckGender(gender)
      case Failure(e) => Failure(e)
      case Success(_) =>
        match CheckScore(score)
        case Failure(e) => Failure(e)
        case Success(_) =>
          match CheckStudentCount(s)
          case Failure(e) => Failure(e)
          case Success(_) =>
            var id := s.counter + 1;
            Success(Sis(id, s.students + [Student(id, name, gender, score)]))
  }

  /** Adding keeps the invariant, so the list never holds more than MAX
      students; the new id exceeds every id handed out before, and the
      twenty-first student is refused. */
  lemma InputStudentValid(s: Sis, nameLine: string, genderLine: string, score: int)
    requires Valid(s)
    ensures var r := InputStudent(s, nameLine, genderLine, score);
      && (r.Success? ==> Valid(r.value) && |r.value.students| <= Max)
      && (r.Success? ==> forall i :: 0 <= i < |s.students| ==> s.students[i].id < r.value.counter)
      && (|s.students| == Max ==> r.Failure?)
  {
    var r := InputStudent(s, nameLine, genderLine, score);
    if r.Success? {
      var t := r.value.students;
      AppendValid(s, t[|t| - 1]);
    }
  }

  /** Appending an admissible student whose id is the next counter value
      to a list below MAX keeps the invariant. */
  lemma AppendValid(s: Sis, st: Student)
    requires Valid(s) && |s.students| < Max
    requires Admissible(st) && st.id == s.counter + 1
    ensures Valid(Sis(s.counter + 1, s.students + [st]))
  {
    var t := s.students + [st];
    assert forall i :: 0 <= i < |s.students| ==> t[i] == s.students[i];
  }

  // ---------------------------------------------------------------------
  // Ranking

  /** Scores never increase along the list. */
  predicate Descending(s: seq<Student>) {
    forall i, j :: 0 <= i < j < |s| ==> s[i].javaScore >= s[j].javaScore
  }

  /** The students scoring v, in list order. */
  function WithScore(s: seq<Student>, v: int): seq<Student> {
    if |s| == 0 then [] else (if s[0].javaScore == v then [s[0]] else []) + WithScore(s[1..], v)
  }

  /** Places x behind every student scoring at least as much. */
  function Insert(t: seq<Student>, x: Student): (r: seq<Student>)
    ensures |r| == |t| + 1 && multiset(r) == multiset(t) + multiset{x}
  {
    if |t| == 0 then [x]
    else if t[0].javaScore >= x.javaScore then
      assert t == [t[0]] + t[1..];
      [t[0]] + Insert(t[1..], x)
    else [x] + t
  }

  /** The list sort `rankStudents` applies with the reversed score
      comparator: a stable sort, here an insertion sort that inserts each
      later student behind the earlier ones it ties with. */
  function SortByScore(s: seq<Student>): (r: seq<Student>)
    ensures |r| == |s| && multiset(r) == multiset(s)
  {
    if |s| == 0 then []
    else
      assert s == s[..|s| - 1] + [s[|s| - 1]];
      Insert(SortByScore(s[..|s| - 1]), s[|s| - 1])
  }

  /** `rankStudents`: the students by non-increasing score, ties in their
      previous order; the counter is untouched. */
  function RankStudents(s: Sis): (r: Sis)
    ensures r.counter == s.counter && multiset(r.students) == multiset(s.students)
    ensures Descending(r.students)
    ensures forall v :: WithScore(r.students, v) == WithScore(s.students, v)
  {
    SortDescending(s.students);
    forall v ensures WithScore(SortByScore(s.students), v) == WithScore(s.students, v) {
      SortStable(s.students, v);
    }
    s.(students := SortByScore(s.students))
  }

  /** Ranking keeps the invariant. */
  lemma RankValid(s: Sis)
    requires Valid(s)
    ensures Valid(RankStudents(s))
  {
    var t := RankStudents(s).students;
    forall i | 0 <= i < |t|
      ensures 1 <= t[i].id <= s.counter && Admissible(t[i])
    {
      assert t[i] in multiset(s.students);
    }
    forall i, j | 0 <= i < j < |t|
      ensures t[i].id != t[j].id
    {
      DistinctIds(s.students, t, i, j);
    }
  }

  /** Ids stay distinct under a permutation. */
  lemma DistinctIds(s: seq<Student>, t: seq<Student>, i: int, j: int)
    requires multiset(t) == multiset(s) && 0 <= i < j < |t|
    requires forall p, q :: 0 <= p < q < |s| ==> s[p].id != s[q].id
    ensures t[i].id != t[j].id
  {
    if t[i].id == t[j].id {
      assert t[i] in multiset(s) && t[j] in multiset(s);
      var p :| 0 <= p < |s| && s[p] == t[i];
      var q :| 0 <= q < |s| && s[q] == t[j];
      assert p == q;
      assert t[i] == t[j];
      var m := multiset(t);
      assert m[t[i]] >= 2 by {
        assert t == t[..i] + [t[i]] + t[i + 1..j] + [t[j]] + t[j + 1..];
      }
      OnceInDistinct(s, p);
      assert false;
    }
  }

  /** With distinct ids, each student occurs once. */
  lemma {:induction false} OnceInDistinct(s: seq<Student>, p: int)
    requires 0 <= p < |s| && forall a, b :: 0 <= a < b < |s| ==> s[a].id != s[b].id
    ensures multiset(s)[s[p]] == 1
  {
    assert s == s[..p] + [s[p]] + s[p + 1..];
    forall k | 0 <= k < |s| && k != p ensures s[k] != s[p] {
      if k < p { assert s[k].id != s[p].id; } else { assert s[p].id != s[k].id; }
    }
    NotIn(s[..p], s[p]);
    NotIn(s[p + 1..], s[p]);
  }

  lemma NotIn(s: seq<Student>, x: Student)
    requires forall k :: 0 <= k < |s| ==> s[k] != x
    ensures multiset(s)[x] == 0
  {
  }

  lemma {:induction false} InsertDescending(t: seq<Student>, x: Student)
    requires Descending(t)
    ensures Descending(Insert(t, x))
    ensures |t| > 0 ==> Insert(t, x)[0].javaScore == if t[0].javaScore >= x.javaScore then t[0].javaScore else x.javaScore
  {
    if |t| > 0 && t[0].javaScore >= x.javaScore {
      var u := Insert(t[1..], x);
      InsertDescending(t[1..], x);
      assert Insert(t, x) == [t[0]] + u;
      if |t| > 1 {
        assert t[0].javaScore >= t[1].javaScore;
      }
    }
  }

  lemma {:induction false} SortDescending(s: seq<Student>)
    ensures Descending(SortByScore(s))
  {
    if |s| > 0 {
      SortDescending(s[..|s| - 1]);
      InsertDescending(SortByScore(s[..|s| - 1]), s[|s| - 1]);
    }
  }

  /** Nobody in a descending list whose head scores below v scores v. */
  lemma {:induction false} NoneScoring(t: seq<Student>, v: int)
    requires Descending(t) && |t| > 0 && t[0].javaScore < v
    ensures WithScore(t, v) == []
  {
    if |t| > 1 {
      assert t[1].javaScore <= t[0].javaScore;
      NoneScoring(t[1..], v);
    }
  }

  /** Inserting x appends it to the students of its own score. */
  lemma {:induction false} InsertStable(t: seq<Student>, x: Student, v: int)
    requires Descending(t)
    ensures WithScore(Insert(t, x), v) == WithScore(t, v) + if x.javaScore == v then [x] else []
  {
    if |t| == 0 {
      WithScoreSingle(x, v);
    } else if t[0].javaScore >= x.javaScore {
      InsertStable(t[1..], x, v);
      InsertBehind(t, x, v);
    } else {
      InsertAhead(t, x, v);
    }
  }

  /** x goes behind the head: the head's contribution comes first. */
  lemma InsertBehind(t: seq<Student>, x: Student, v: int)
    requires |t| > 0 && t[0].javaScore >= x.javaScore
    requires WithScore(Insert(t[1..], x), v) == WithScore(t[1..], v) + if x.javaScore == v then [x] else []
    ensures WithScore(Insert(t, x), v) == WithScore(t, v) + if x.javaScore == v then [x] else []
  {
    var u := Insert(t[1..], x);
    var e := if x.javaScore == v then [x] else [];
    assert Insert(t, x) == [t[0]] + u;
    WithScoreCons(t[0], u, v);
    WithScoreCons(t[0], t[1..], v);
    assert [t[0]] + t[1..] == t;
    assert WithScore(Insert(t, x), v) == WithScore([t[0]], v) + (WithScore(t[1..], v) + e);
  }

  /** The students of score v in a list with a given head. */
  lemma WithScoreCons(h: Student, u: seq<Student>, v: int)
    ensures WithScore([h] + u, v) == WithScore([h], v) + WithScore(u, v)
  {
    assert ([h] + u)[1..] == u;
    assert [h][1..] == [];
  }

  /** x goes in front of a head scoring less: nobody else scores as x. */
  lemma InsertAhead(t: seq<Student>, x: Student, v: int)
    requires Descending(t) && |t| > 0 && t[0].javaScore < x.javaScore
    ensures WithScore(Insert(t, x), v) == WithScore(t, v) + if x.javaScore == v then [x] else []
  {
    assert Insert(t, x) == [x] + t;
    assert ([x] + t)[1..] == t;
    if x.javaScore == v {
      NoneScoring(t, v);
    }
  }

  lemma {:induction false} WithScoreAppend(a: seq<Student>, b: seq<Student>, v: int)
    ensures WithScore(a + b, v) == WithScore(a, v) + WithScore(b, v)
  {
    if |a| > 0 {
      assert (a + b)[1..] == a[1..] + b;
      WithScoreAppend(a[1..], b, v);
    } else {
      assert a + b == b;
    }
  }

  /** The sort is stable: the students of each score keep their order. */
  lemma {:induction false} SortStable(s: seq<Student>, v: int)
    ensures WithScore(SortByScore(s), v) == WithScore(s, v)
  {
    if |s| > 0 {
      var p, x := s[..|s| - 1], s[|s| - 1];
      SortStable(p, v);
      SortDescending(p);
      InsertStable(SortByScore(p), x, v);
      SnocScore(s, p, x, v);
    }
  }

  lemma WithScoreSingle(x: Student, v: int)
    ensures WithScore([x], v) == if x.javaScore == v then [x] else []
  {
    assert [x][1..] == [];
  }

  /** The students of score v in a list extended by x. */
  lemma SnocScore(s: seq<Student>, p: seq<Student>, x: Student, v: int)
    requires |s| > 0 && p == s[..|s| - 1] && x == s[|s| - 1]
    ensures WithScore(s, v) == WithScore(p, v) + if x.javaScore == v then [x] else []
  {
    assert s == p + [x];
    WithScoreAppend(p, [x], v);
    WithScoreSingle(x, v);
  }

  /** A descending, stable arrangement is unique: two descending lists with
      the same students of every score, in the same order, are equal. So
      any stable sort by non-increasing score, the library's included,
      yields the list SortByScore yields. */
  lemma {:induction false} StableSortUnique(r1: seq<Student>, r2: seq<Student>)
    requires Descending(r1) && Descending(r2)
    requires forall v :: WithScore(r1, v) == WithScore(r2, v)
    ensures r1 == r2
    decreases |r1| + |r2|
  {
    SameEmptiness(r1, r2);
    if |r1| > 0 {
      var a, b := r1[0], r2[0];
      HeadScores(r1, r2);
      HeadScores(r2, r1);
      var m := a.javaScore;
      var w1, w2 := WithScore(r1[1..], m), WithScore(r2[1..], m);
      assert WithScore(r1, m) == [a] + w1 && WithScore(r2, m) == [b] + w2;
      assert ([a] + w1)[0] == a && ([b] + w2)[0] == b;
      assert a == b;
      forall v ensures WithScore(r1[1..], v) == WithScore(r2[1..], v) {
        var h: seq<Student> := if a.javaScore == v then [a] else [];
        var x1, x2 := WithScore(r1[1..], v), WithScore(r2[1..], v);
        assert WithScore(r1, v) == h + x1 && WithScore(r2, v) == h + x2;
        assert x1 == (h + x1)[|h|..] && x2 == (h + x2)[|h|..];
      }
      StableSortUnique(r1[1..], r2[1..]);
      assert r1 == [a] + r1[1..] && r2 == [b] + r2[1..];
    }
  }

  /** Any arrangement of the students by non-increasing score that keeps
      the order among equal scores is the ranking. */
  lemma RankIsTheStableSort(s: Sis, r: seq<Student>)
    requires Descending(r) && forall v :: WithScore(r, v) == WithScore(s.students, v)
    ensures r == RankStudents(s).students
  {
    StableSortUnique(r, RankStudents(s).students);
  }

  /** Lists with the same students of each score are empty together. */
  lemma SameEmptiness(r1: seq<Student>, r2: seq<Student>)
    requires forall v :: WithScore(r1, v) == WithScore(r2, v)
    ensures |r1| == 0 <==> |r2| == 0
  {
    if |r1| > 0 {
      assert WithScore(r2, r1[0].javaScore) != [];
    }
    if |r2| > 0 {
      assert WithScore(r1, r2[0].javaScore) != [];
    }
  }

  /** The head of a descending list scores at least the head of any list
      with the same students of each score. */
  lemma HeadScores(r1: seq<Student>, r2: seq<Student>)
    requires Descending(r2) && |r1| > 0 && |r2| > 0
    requires forall v :: WithScore(r1, v) == WithScore(r2, v)
    ensures r1[0].javaScore <= r2[0].javaScore
  {
    var m := r1[0].javaScore;
    assert WithScore(r1, m) != [];
    if m > r2[0].javaScore {
      NoneScoring(r2, m);
    }
  }

  // ---------------------------------------------------------------------
  // File suffixes

  datatype SuffixError = DirectoryOrSuffixEmpty | SuffixEmpty

  /** The suffix `sortFilesByLastModified` filters by, from the directory
      and suffix lines (both trimmed): either being empty is refused, one
      leading '.' is stripped, and a suffix that was only "." is refused. */
  function NormalizeSuffix(directoryLine: string, suffixLine: string): (r: Result<string, SuffixError>)
    ensures var d, t := JavaText.Trim(directoryLine), JavaText.Trim(suffixLine);
      && (r == Failure(DirectoryOrSuffixEmpty) <==> d == [] || t == [])
      && (r == Failure(SuffixEmpty) <==> d != [] && t == ".")
      && (r.Success? ==> |r.value| > 0 && (t == "." + r.value || (t == r.value && t[0] != '.')))
  {
    var d, t := JavaText.Trim(directoryLine), JavaText.Trim(suffixLine);
    if d == [] || t == [] then Failure(DirectoryOrSuffixEmpty)
    else
      var n := if JavaText.StartsWith(t, ".") then t[1..] else t;
      assert JavaText.StartsWith(t, ".") ==> t == "." + n;
      if n == [] then Failure(SuffixEmpty) else Success(n)
  }

  /** The leading dot is optional, and only one is stripped: "txt" and
      ".txt" give "txt", "..txt" gives ".txt". */
  lemma DotOptional(dir: string, w: string)
    requires JavaText.Trim(dir) != [] && |w| > 0 && JavaText.IsTrimmed(w)
    ensures NormalizeSuffix(dir, "." + w) == Success(w)
    ensures w[0] != '.' ==> NormalizeSuffix(dir, w) == Success(w)
  {
    JavaText.TrimClean(w);
    JavaText.TrimClean("." + w);
    assert JavaText.StartsWith("." + w, ".");
    assert ("." + w)[1..] == w;
    if w[0] != '.' {
      assert !JavaText.StartsWith(w, ".");
    }
  }
}
