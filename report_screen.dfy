/** ReportScreen: the percentage of a saved work, its grade under the four grading criteria,
    and how a criterion's text is read as a minimum percentage. */
module ReportScreen {
  import opened Results
  import opened Text
  import VideoProcessing

  /** The four criterion fields, for the grades 5, 4, 3 and 2. */
  datatype Criteria = Criteria(five: string, four: string, three: string, two: string)

  /** The texts the criterion fields start with. */
  const DefaultCriteria := Criteria("90-100%", "75-89%", "50-74%", LessThanFifty)

  /** parse_percentage: the text before the first '-', stripped, without any '%', read as a
      float; text that does not read as a number gives 0.  A criterion never reads as negative:
      the cut at the first '-' removes any minus sign. */
  function ParsePercentage(text: string): (r: real)
    ensures r >= 0.0
  {
    var head := BeforeFirst(text, '-');
    StripKeepsAbsent(head, '-');
    var digits := RemoveAll(Strip(head), '%');
    assert '-' !in digits by {
      assert multiset(digits)['-'] == multiset(Strip(head))['-'] == 0;
    }
    StripKeepsAbsent(digits, '-');
    ParseDecimal(digits).GetOr(0.0)
  }

  /** A criterion "n-..." reads as n. */
  lemma ParseRangeStart(n: nat, rest: string)
    ensures ParsePercentage(NatToString(n) + "-" + rest) == n as real
  {
    var d := NatToString(n);
    assert forall k :: 0 <= k < |d| ==> IsDigit(d[k]);
    assert '-' !in d && '%' !in d;
    BeforeFirstOfPrefix(d, '-', rest);
    StripDigits(d);
    RemoveAbsent(d, '%');
    ParseDecimalOfNat(n);
  }

  /** A criterion that is just a number and a '%', with no range, reads as that number. */
  lemma ParseBareNumber(n: nat)
    ensures ParsePercentage(NatToString(n) + "%") == n as real
  {
    var d := NatToString(n);
    assert forall k :: 0 <= k < |d| ==> IsDigit(d[k]);
    var t := d + "%";
    assert '-' !in t;
    BeforeFirstAll(t, '-');
    StripBareNumber(d);
    assert RemoveAll(t, '%') == d by {
      RemoveAbsent(d, '%');
      RemoveAllConcat(d, "%", '%');
    }
    ParseDecimalOfNat(n);
  }

  lemma StripBareNumber(d: string)
    requires |d| > 0 && AllDigits(d)
    ensures Strip(d + "%") == d + "%"
  {
    var t := d + "%";
    assert IsDigit(d[0]) && t[0] == d[0] && t[|t| - 1] == '%';
  }

  lemma {:induction false} RemoveAllConcat(a: string, b: string, ch: char)
    ensures RemoveAll(a + b, ch) == RemoveAll(a, ch) + RemoveAll(b, ch)
  {
    if |a| > 0 {
      assert (a + b)[1..] == a[1..] + b;
      RemoveAllConcat(a[1..], b, ch);
    } else {
      assert a + b == b;
    }
  }

  /** Text whose part before the first '-' is not a number reads as 0. */
  lemma ParseNonNumber(text: string)
    requires ParseDecimal(RemoveAll(Strip(BeforeFirst(text, '-')), '%')).None?
    ensures ParsePercentage(text) == 0.0
  {
  }

  /** The default criteria read as 90, 75, 50 and 0. */
  lemma DefaultThresholds()
    ensures ParsePercentage(DefaultCriteria.five) == 90.0
    ensures ParsePercentage(DefaultCriteria.four) == 75.0
    ensures ParsePercentage(DefaultCriteria.three) == 50.0
    ensures ParsePercentage(DefaultCriteria.two) == 0.0
  {
    DefaultFive();
    DefaultFour();
    DefaultThree();
    LessThanFiftyIsNotANumber();
  }

  lemma DefaultFive()
    ensures ParsePercentage(DefaultCriteria.five) == 90.0
  {
    assert DefaultCriteria.five == NatToString(90) + "-" + "100%" by {
      assert NatToString(90) == "90";
    }
    ParseRangeStart(90, "100%");
  }

  lemma DefaultFour()
    ensures ParsePercentage(DefaultCriteria.four) == 75.0
  {
    assert DefaultCriteria.four == NatToString(75) + "-" + "89%" by {
      assert NatToString(75) == "75";
    }
    ParseRangeStart(75, "89%");
  }

  lemma DefaultThree()
    ensures ParsePercentage(DefaultCriteria.three) == 50.0
  {
    assert DefaultCriteria.three == NatToString(50) + "-" + "74%" by {
      assert NatToString(50) == "50";
    }
    ParseRangeStart(50, "74%");
  }

  /** The default criterion for "2". */
  const LessThanFifty := "менее 50%"

  /** "менее 50%" holds no '-', so all of it is read, and it starts with a letter. */
  lemma LessThanFiftyIsNotANumber()
    ensures ParsePercentage(DefaultCriteria.two) == 0.0
  {
    var t := LessThanFifty;
    assert forall k :: 0 <= k < |t| ==> t[k] != '-';
    assert t[0] == 'м';
    WordIsNotANumber(t);
  }

  /** A character that cannot start a number, even after strip() and the removal of '%'. */
  predicate StartsNoNumber(c: char) {
    !IsSpace(c) && !IsDigit(c) && c != '+' && c != '-' && c != '.' && c != '%'
  }

  /** A criterion without '-' that starts with such a character reads as 0. */
  lemma WordIsNotANumber(t: string)
    requires |t| > 0 && '-' !in t && StartsNoNumber(t[0])
    ensures ParsePercentage(t) == 0.0
  {
    BeforeFirstAll(t, '-');
    StripKeepsFirst(t);
    var s := Strip(t);
    RemoveAllKeepsFirst(s, '%');
    var u := RemoveAll(s, '%');
    NotANumber(u);
  }

  lemma StripKeepsFirst(u: string)
    requires |u| > 0 && !IsSpace(u[0])
    ensures |Strip(u)| > 0 && Strip(u)[0] == u[0]
  {
    assert TrimStart(u) == u;
    var r := TrimEnd(u);
    assert u[0] == u[..|r|][0] || |r| == 0;
  }

  lemma RemoveAllKeepsFirst(s: string, ch: char)
    requires |s| > 0 && s[0] != ch
    ensures |RemoveAll(s, ch)| > 0 && RemoveAll(s, ch)[0] == s[0]
  {
  }

  /** Text that starts with neither whitespace, a sign, a digit nor a point does not read as a
      number. */
  lemma NotANumber(u: string)
    requires |u| > 0 && !IsSpace(u[0])
    requires u[0] != '+' && u[0] != '-' && u[0] != '.' && !IsDigit(u[0])
    ensures ParseDecimal(u).None?
  {
    StripKeepsFirst(u);
    var s := Strip(u);
    var whole := BeforeFirst(s, '.');
    assert |whole| > 0 && whole[0] == u[0];
  }

  /** grade_work: the first of "5", "4", "3", "2" whose criterion is at most the percentage,
      and "1" when there is none. */
  function GradeWork(percentage: real, criteria: Criteria): (g: string)
    ensures g in {"1", "2", "3", "4", "5"}
  {
    Cascade(percentage, ParsePercentage(criteria.five), ParsePercentage(criteria.four),
            ParsePercentage(criteria.three), ParsePercentage(criteria.two))
  }

  /** The if/elif cascade of grade_work on the four parsed criteria. */
  function Cascade(p: real, t5: real, t4: real, t3: real, t2: real): (g: string)
    ensures g in {"1", "2", "3", "4", "5"}
  {
    if p >= t5 then "5"
    else if p >= t4 then "4"
    else if p >= t3 then "3"
    else if p >= t2 then "2"
    else "1"
  }

  /** The grade as a number. */
  function Rank(g: string): nat {
    if g == "5" then 5 else if g == "4" then 4 else if g == "3" then 3 else if g == "2" then 2 else 1
  }

  /** Each grade is given exactly when the percentage reaches its criterion and none of the
      criteria before it. */
  lemma GradeCascade(p: real, criteria: Criteria)
    ensures var t5, t4, t3, t2 := ParsePercentage(criteria.five), ParsePercentage(criteria.four),
                                 ParsePercentage(criteria.three), ParsePercentage(criteria.two);
            var g := GradeWork(p, criteria);
            && (g == "5" <==> p >= t5)
            && (g == "4" <==> p < t5 && p >= t4)
            && (g == "3" <==> p < t5 && p < t4 && p >= t3)
            && (g == "2" <==> p < t5 && p < t4 && p < t3 && p >= t2)
            && (g == "1" <==> p < t5 && p < t4 && p < t3 && p < t2)
  {
  }

  /** For fixed criteria a higher percentage never gets a lower grade. */
  lemma GradeIsMonotone(p: real, q: real, criteria: Criteria)
    requires p <= q
    ensures Rank(GradeWork(p, criteria)) <= Rank(GradeWork(q, criteria))
  {
    CascadeIsMonotone(p, q, ParsePercentage(criteria.five), ParsePercentage(criteria.four),
                      ParsePercentage(criteria.three), ParsePercentage(criteria.two));
  }

  lemma CascadeIsMonotone(p: real, q: real, t5: real, t4: real, t3: real, t2: real)
    requires p <= q
    ensures Rank(Cascade(p, t5, t4, t3, t2)) <= Rank(Cascade(q, t5, t4, t3, t2))
  {
  }

  /** With the default criteria the grade bands are [90, ...), [75, 90), [50, 75) and [0, 50),
      so every percentage that is not negative gets at least "2". */
  lemma DefaultGrades(p: real)
    requires p >= 0.0
    ensures var g := GradeWork(p, DefaultCriteria);
            && g != "1"
            && (g == "5" <==> p >= 90.0)
            && (g == "4" <==> 75.0 <= p < 90.0)
            && (g == "3" <==> 50.0 <= p < 75.0)
            && (g == "2" <==> p < 50.0)
  {
    DefaultIsCascade(p);
  }

  lemma DefaultIsCascade(p: real)
    ensures GradeWork(p, DefaultCriteria) == Cascade(p, 90.0, 75.0, 50.0, 0.0)
  {
    DefaultThresholds();
  }

  /** str(ZeroDivisionError) */
  const DivisionByZero := "division by zero"

  /** percentage = (correct_answers / total_questions) * 100, which raises for a work without
      questions. */
  function Percentage(correct: nat, total: nat): (r: Result<real, string>)
    ensures r.Err? <==> total == 0
    ensures r.Err? ==> r.error == DivisionByZero
    ensures r.Ok? ==> r.value * total as real == correct as real * 100.0
  {
    if total == 0 then Err(DivisionByZero)
    else Ok((correct as real / total as real) * 100.0)
  }

  /** A work with no more right answers than questions scores between 0 and 100, and 100
      exactly when every answer is right. */
  lemma PercentageBounds(correct: nat, total: nat)
    requires 0 < total && correct <= total
    ensures var p := Percentage(correct, total).value;
            0.0 <= p <= 100.0 && (p == 100.0 <==> correct == total)
  {
    VideoProcessing.ScoreBounds(correct, total);
    PercentageIsScore(correct, total);
  }

  /** The percentage recomputed from a saved record is the score the scanner reported. */
  lemma PercentageIsScore(correct: nat, total: nat)
    requires total > 0
    ensures Percentage(correct, total) == Ok(VideoProcessing.Score(correct, total))
  {
  }

  /** What update_report shows for a work: its grade, or the text of the exception. */
  function WorkGrade(correct: nat, total: nat, criteria: Criteria): (r: Result<string, string>)
    ensures r.Err? <==> total == 0
    ensures r.Err? ==> r.error == "Ошибка: " + DivisionByZero
  {
    match Percentage(correct, total)
    case Err(e) => Err("Ошибка: " + e)
    case Ok(p) => Ok(GradeWork(p, criteria))
  }

  /** With the default criteria every recorded work gets at least "2", and a work with every
      answer right gets "5". */
  lemma DefaultWorkGrades(correct: nat, total: nat)
    requires 0 < total && correct <= total
    ensures WorkGrade(correct, total, DefaultCriteria).Ok?
    ensures WorkGrade(correct, total, DefaultCriteria).value != "1"
    ensures correct == total ==> WorkGrade(correct, total, DefaultCriteria).value == "5"
  {
    PercentageBounds(correct, total);
    DefaultGrades(Percentage(correct, total).value);
  }
}
