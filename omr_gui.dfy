/** OMRApp: the grid settings, the answer key taken from the checkbox grid and the numbering of
    the works appended to the report.  The Qt widgets are left out: the text of the two entry
    fields is passed in, a checkbox is its checked state, and a message box is a Notice. */
module OmrGui {
  import opened Results
  import opened Images
  import opened Text
  import opened VideoProcessing

  /** A QMessageBox: information, warning or critical, with its text.  SaveFailed is the
      critical box "Не удалось сохранить отчет: {e}" for an exception caught while saving. */
  datatype Notice =
    | Info(text: string)
    | Warning(text: string)
    | Critical(text: string)
    | SaveFailed(error: SaveError)

  /** The exceptions a save catches: one raised by process_video_frame, or the TypeError of a
      call to load_report with `given` positional arguments besides self. */
  datatype SaveError =
    | FrameFault(fault: Fault)
    | LoadReportArity(given: nat)

  const QuestionsError := "Количество вопросов должно быть положительным целым числом."
  const ChoicesError := "Количество вариантов должно быть положительным целым числом."
  const KeyUpdated := "Настройки успешно обновлены!"
  const NoFrame := "Стоп-кадр не создан."

  /** str(e) of the ValueError int() raises on text that is not an integer. */
  function IntError(text: string): string {
    "invalid literal for int() with base 10: '" + text + "'"
  }

  /** The error of update_correct_answers for question number q (counted from 1). */
  function QuestionError(q: nat): string {
    "Вопрос " + NatToString(q) + " должен иметь ровно один правильный ответ."
  }

  /** int(text), then the check that the value is positive with its own error message. */
  function ReadCount(text: string, notPositive: string): (r: Result<nat, string>)
    ensures r.Ok? ==> r.value > 0
  {
    match ParseInt(text)
    case None => Err(IntError(text))
    case Some(v) => if v <= 0 then Err(notPositive) else Ok(v)
  }

  /** An entry holding str(n) of a positive n reads as n. */
  lemma ReadCountOfPositive(n: nat, notPositive: string)
    requires n > 0
    ensures ReadCount(NatToString(n), notPositive) == Ok(n)
  {
    ParseIntRoundTrip(n);
  }

  /** An entry holding str(i) of a non-positive i is refused with the positivity message, and
      text int() cannot read is refused with int()'s own message. */
  lemma ReadCountRejects(i: int, text: string, notPositive: string)
    requires i <= 0
    requires ParseInt(text).None?
    ensures ReadCount(IntToString(i), notPositive) == Err(notPositive)
    ensures ReadCount(text, notPositive) == Err(IntError(text))
  {
    ParseIntRoundTrip(i);
  }

  /** The checkbox grid create_checkboxes builds: questions rows of choices unchecked boxes. */
  function Unchecked(questions: nat, choices: nat): (grid: seq<seq<bool>>)
    ensures |grid| == questions
    ensures forall i :: 0 <= i < questions ==> |grid[i]| == choices
    ensures forall i, j :: 0 <= i < questions && 0 <= j < choices ==> !grid[i][j]
  {
    seq(questions, _ => seq(choices, _ => false))
  }

  /** [j for j, var in enumerate(row_vars) if var.isChecked()]: the checked columns in order. */
  function CheckedColumns(row: seq<bool>): (cols: seq<nat>)
    ensures forall k :: 0 <= k < |cols| ==> cols[k] < |row| && row[cols[k]]
    ensures forall j :: 0 <= j < |row| && row[j] ==> j in cols
    ensures forall k, l :: 0 <= k < l < |cols| ==> cols[k] < cols[l]
  {
    if |row| == 0 then []
    else CheckedColumns(row[..|row| - 1]) + (if row[|row| - 1] then [|row| - 1] else [])
  }

  predicate HasOneChecked(row: seq<bool>) {
    |CheckedColumns(row)| == 1
  }

  /** A row passes the check exactly when one box in it is checked; that box's column is then
      the answer taken. */
  lemma OneCheckedIff(row: seq<bool>, j: nat)
    requires j < |row| && row[j]
    ensures HasOneChecked(row) <==> forall k :: 0 <= k < |row| && row[k] ==> k == j
    ensures HasOneChecked(row) ==> CheckedColumns(row)[0] == j
  {
    var cols := CheckedColumns(row);
    assert j in cols;
    if HasOneChecked(row) {
      forall k | 0 <= k < |row| && row[k]
        ensures k == j
      {
        assert k in cols;
      }
    }
    if forall k :: 0 <= k < |row| && row[k] ==> k == j {
      OnlyCheckedColumn(row, j);
    }
  }

  /** When j is the only checked box, j is the only checked column. */
  lemma {:induction false} OnlyCheckedColumn(row: seq<bool>, j: nat)
    requires j < |row| && row[j]
    requires forall k :: 0 <= k < |row| && row[k] ==> k == j
    ensures CheckedColumns(row) == [j]
  {
    var init := row[..|row| - 1];
    if j == |row| - 1 {
      NoneCheckedFails(init);
    } else {
      OnlyCheckedColumn(init, j);
    }
  }

  /** A row without a checked box has no checked column, so it fails the check. */
  lemma {:induction false} NoneCheckedFails(row: seq<bool>)
    requires forall j :: 0 <= j < |row| ==> !row[j]
    ensures CheckedColumns(row) == [] && !HasOneChecked(row)
  {
    if |row| > 0 {
      NoneCheckedFails(row[..|row| - 1]);
    }
  }

  /** The index of the first row that fails the check, or the number of rows when none does. */
  function FirstFailingRow(grid: seq<seq<bool>>): (i: nat)
    ensures i <= |grid|
    ensures forall k :: 0 <= k < i ==> HasOneChecked(grid[k])
    ensures i < |grid| ==> !HasOneChecked(grid[i])
  {
    if |grid| == 0 then 0
    else if !HasOneChecked(grid[0]) then 0
    else 1 + FirstFailingRow(grid[1..])
  }

  /** The answers of the first n rows, each the column of the row's checked box. */
  function AnswersOf(grid: seq<seq<bool>>, n: nat): (key: seq<int>)
    requires n <= |grid| && forall k :: 0 <= k < n ==> HasOneChecked(grid[k])
    ensures |key| == n
  {
    seq(n, k requires 0 <= k < n && HasOneChecked(grid[k]) => CheckedColumns(grid[k])[0] as int)
  }

  /** One more passing row appends its checked column to the answers. */
  lemma AnswersOfStep(grid: seq<seq<bool>>, i: nat)
    requires i < |grid| && forall k :: 0 <= k <= i ==> HasOneChecked(grid[k])
    ensures AnswersOf(grid, i + 1) == AnswersOf(grid, i) + [CheckedColumns(grid[i])[0] as int]
  {
  }

  /** Each answer taken is the only checked column of its row, so it lies in [0, |row|). */
  lemma AnswersAreCheckedColumns(grid: seq<seq<bool>>, n: nat, k: nat)
    requires n <= |grid| && forall r :: 0 <= r < n ==> HasOneChecked(grid[r])
    requires k < n
    ensures var key := AnswersOf(grid, n);
            && 0 <= key[k] < |grid[k]| && grid[k][key[k]]
            && forall j :: 0 <= j < |grid[k]| && grid[k][j] ==> j == key[k]
  {
    var key := AnswersOf(grid, n);
    var cols := CheckedColumns(grid[k]);
    assert key[k] == cols[0];
    forall j | 0 <= j < |grid[k]| && grid[k][j]
      ensures j == key[k]
    {
      assert j in cols;
    }
  }

  /** A freshly built grid fails at question 1. */
  lemma FreshGridFailsAtFirstQuestion(questions: nat, choices: nat)
    requires questions > 0
    ensures FirstFailingRow(Unchecked(questions, choices)) == 0
  {
    NoneCheckedFails(Unchecked(questions, choices)[0]);
  }

  /** "Работа": the word each record of the report starts with. */
  const WorkMarker := "Работа"

  /** The next work number: one more than the number of "Работа" in the existing report, or 1
      when there is no report. */
  function NextWorkNumber(content: Option<string>): (n: nat)
    ensures n >= 1
  {
    match content
    case None => 1
    case Some(text) => Count(text, WorkMarker) + 1
  }

  /** The record a save appends: the four lines of results under the heading "Работа n".
      scoreText is the score formatted with two decimals. */
  function Record(n: nat, questions: nat, correct: nat, scoreText: string): (r: string)
    ensures WorkMarker <= r && |r| > |WorkMarker| + 3
    ensures r[|r| - 3..] == "%\n\n"
  {
    WorkMarker + RecordBody(n, questions, correct, scoreText)
  }

  /** Everything of a record after its heading word. */
  function RecordBody(n: nat, questions: nat, correct: nat, scoreText: string): string {
    " " + NatToString(n) + "\n"
      + TotalLabel + NatToString(questions) + "\n"
      + CorrectLabel + NatToString(correct) + "\n"
      + WrongLabel + IntToString(questions - correct) + "\n"
      + PercentLabel + scoreText + "%\n\n"
  }

  const TotalLabel := "Всего вопросов: "
  const CorrectLabel := "Правильных ответов: "
  const WrongLabel := "Неправильных ответов: "
  const PercentLabel := "Процент выполнения: "

  /** The figures a record reports for a frame result: the count and score of a graded frame,
      and (0, 0) for the fallback. */
  function Figures(res: FrameResult): (nat, real)
    requires !res.Raised?
  {
    if res.Graded? then (res.correct, res.score) else (0, 0.0)
  }

  lemma MarkerIsBorderless()
    ensures Borderless(WorkMarker)
  {
    var p := WorkMarker;
    forall k | 0 < k < |p|
      ensures p[..k] != p[|p| - k..]
    {
      assert p[..k][0] == 'Р';
      assert p[|p| - k..][0] == p[|p| - k];
    }
  }

  /** Decimal digits and the minus sign are not the marker's first letter. */
  lemma NoMarkerInNumbers(n: nat, i: int)
    ensures 'Р' !in NatToString(n) && 'Р' !in IntToString(i)
  {
    var s := NatToString(n);
    assert forall k :: 0 <= k < |s| ==> IsDigit(s[k]);
    var a: nat := if i < 0 then -i else i;
    var t := NatToString(a);
    assert forall k :: 0 <= k < |t| ==> IsDigit(t[k]);
  }

  /** None of the fixed text of a record contains the marker's first letter. */
  lemma NoMarkerInLabels()
    ensures 'Р' !in TotalLabel && 'Р' !in CorrectLabel && 'Р' !in WrongLabel && 'Р' !in PercentLabel
    ensures 'Р' !in " " && 'Р' !in "\n" && 'Р' !in "%\n\n"
  {
    assert forall k :: 0 <= k < |TotalLabel| ==> TotalLabel[k] != 'Р';
    assert forall k :: 0 <= k < |CorrectLabel| ==> CorrectLabel[k] != 'Р';
    assert forall k :: 0 <= k < |WrongLabel| ==> WrongLabel[k] != 'Р';
    assert forall k :: 0 <= k < |PercentLabel| ==> PercentLabel[k] != 'Р';
  }

  lemma NoMarkerInBody(n: nat, questions: nat, correct: nat, scoreText: string)
    requires 'Р' !in scoreText
    ensures 'Р' !in RecordBody(n, questions, correct, scoreText)
  {
    NoMarkerInLabels();
    NoMarkerInNumbers(n, questions - correct);
    NoMarkerInNumbers(questions, 0);
    NoMarkerInNumbers(correct, 0);
  }

  /** A record holds the marker exactly once, at its start. */
  lemma RecordHoldsOneMarker(n: nat, questions: nat, correct: nat, scoreText: string)
    requires 'Р' !in scoreText
    ensures WorkMarker <= Record(n, questions, correct, scoreText)
    ensures Count(Record(n, questions, correct, scoreText), WorkMarker) == 1
  {
    var rec := Record(n, questions, correct, scoreText);
    var body := RecordBody(n, questions, correct, scoreText);
    NoMarkerInBody(n, questions, correct, scoreText);
    assert rec[..|WorkMarker|] == WorkMarker;
    assert rec[|WorkMarker|..] == body;
    CountWithoutFirstChar(body, WorkMarker);
  }

  /** Saving appends one record numbered NextWorkNumber(file); afterwards the next number is one
      more, so successive saves are numbered 1, 2, 3, ... */
  lemma SaveAdvancesWorkNumber(file: Option<string>, questions: nat, correct: nat, scoreText: string)
    requires 'Р' !in scoreText
    ensures var n := NextWorkNumber(file);
            NextWorkNumber(Some(file.GetOr("") + Record(n, questions, correct, scoreText))) == n + 1
  {
    var n := NextWorkNumber(file);
    var rec := Record(n, questions, correct, scoreText);
    RecordHoldsOneMarker(n, questions, correct, scoreText);
    MarkerIsBorderless();
    CountConcat(file.GetOr(""), rec, WorkMarker);
    if file.None? {
      assert Count("", WorkMarker) == 0;
    }
  }

  /** ReportScreen.load_report(self) takes no argument besides self: a call that passes
      arguments raises TypeError before its body runs.  None means the call goes through. */
  function LoadReportCall(args: seq<string>): (r: Option<SaveError>)
    ensures r.None? <==> |args| == 0
    ensures r.Some? ==> r.value == LoadReportArity(|args|)
  {
    if |args| == 0 then None else Some(LoadReportArity(|args|))
  }

  /** The message add_report_to_screen means to show after adding work n. */
  function ScreenConfirmation(n: nat): string {
    "Отчет успешно добавлен как 'Работа " + NatToString(n) + "'."
  }

  /** The screen text and the message of add_report_to_screen, as written, once
      process_video_frame has returned: whatever the record, load_report(updated_content) raises,
      so the screen keeps its text and the failure is shown; the success message never appears. */
  function ScreenAsWritten(screenText: string, questions: nat, correct: nat, scoreText: string): (r: (string, Notice))
    ensures r == (screenText, SaveFailed(LoadReportArity(1)))
    ensures !r.1.Info?
  {
    var n := NextWorkNumber(Some(screenText));
    var updatedContent := screenText + Record(n, questions, correct, scoreText);
    match LoadReportCall([updatedContent])
    case Some(e) => (screenText, SaveFailed(e))
    case None => (updatedContent, Info(ScreenConfirmation(n)))
  }

  /** The same once load_report shows the text it is given: the screen gains the record
      numbered NextWorkNumber of the screen and the success message names that number. */
  function ScreenCorrected(screenText: string, questions: nat, correct: nat, scoreText: string): (r: (string, Notice))
    ensures var n := NextWorkNumber(Some(screenText));
            && screenText <= r.0 && r.0[|screenText|..] == Record(n, questions, correct, scoreText)
            && r.1 == Info(ScreenConfirmation(n))
  {
    var n := NextWorkNumber(Some(screenText));
    (screenText + Record(n, questions, correct, scoreText), Info(ScreenConfirmation(n)))
  }

  /** With the correction, successive additions to the screen are numbered 1, 2, 3, ... from an
      empty screen, as the saves to report.txt are. */
  lemma ScreenAdvancesWorkNumber(screenText: string, questions: nat, correct: nat, scoreText: string)
    requires 'Р' !in scoreText
    ensures var r := ScreenCorrected(screenText, questions, correct, scoreText);
            NextWorkNumber(Some(r.0)) == NextWorkNumber(Some(screenText)) + 1
  {
    SaveAdvancesWorkNumber(Some(screenText), questions, correct, scoreText);
  }

  /** A key shorter than the number of questions, as apply_settings leaves it after raising the
      number of questions, never grades a frame. */
  lemma ShortKeyNeverGrades(img: Image, questions: nat, choices: nat, key: seq<int>, size: nat, cv: Vision)
    requires |key| < questions
    ensures !FrameSpec(img, questions, choices, key, size, cv).Graded?
  {
    if FrameSpec(img, questions, choices, key, size, cv).Graded? {
      GradedFrame(img, questions, choices, key, size, cv);
    }
  }

  /** The configuration window: grid size, answer key, checkbox states, the paused frame and the
      report file (None when report.txt does not exist). */
  class OmrApp {
    var questions: nat
    var choices: nat
    var correctAnswers: seq<int>
    var checkboxes: seq<seq<bool>>
    var pausedFrame: Option<Image>
    var reportFile: Option<string>
    const imageSize: nat

    /** Positive grid dimensions, and every checkbox row as long as the number of choices.  The
        number of rows is not kept equal to the number of questions: apply_settings can commit a
        new number of questions without rebuilding the grid. */
    predicate Valid()
      reads this
    {
      && questions > 0 && choices > 0
      && forall i :: 0 <= i < |checkboxes| ==> |checkboxes[i]| == choices
    }

    /** The defaults of __init__: 5 questions of 5 choices, key [1, 2, 0, 2, 4], image size 700,
        a fresh checkbox grid and no paused frame. */
    constructor(reportFile: Option<string>)
      ensures Valid()
      ensures questions == 5 && choices == 5 && correctAnswers == [1, 2, 0, 2, 4] && imageSize == 700
      ensures checkboxes == Unchecked(5, 5) && pausedFrame == None && this.reportFile == reportFile
    {
      questions := 5;
      choices := 5;
      correctAnswers := [1, 2, 0, 2, 4];
      imageSize := 700;
      pausedFrame := None;
      this.reportFile := reportFile;
      new;
      CreateCheckboxes();
    }

    /** create_checkboxes: questions rows of choices unchecked boxes, built row by row. */
    method CreateCheckboxes()
      modifies this
      ensures checkboxes == Unchecked(questions, choices)
      ensures questions == old(questions) && choices == old(choices) && correctAnswers == old(correctAnswers)
      ensures pausedFrame == old(pausedFrame) && reportFile == old(reportFile)
    {
      checkboxes := [];
      var i := 0;
      while i < questions
        invariant i <= questions
        invariant checkboxes == Unchecked(i, choices)
        invariant questions == old(questions) && choices == old(choices) && correctAnswers == old(correctAnswers)
        invariant pausedFrame == old(pausedFrame) && reportFile == old(reportFile)
      {
        var rowVars: seq<bool> := [];
        var j := 0;
        while j < choices
          invariant j <= choices
          invariant rowVars == seq(j, _ => false)
        {
          rowVars := rowVars + [false];
          j := j + 1;
        }
        checkboxes := checkboxes + [rowVars];
        i := i + 1;
      }
    }

    /** A click that sets checkbox (i, j). */
    method SetChecked(i: nat, j: nat, checked: bool)
      requires Valid() && i < |checkboxes| && j < choices
      modifies this
      ensures Valid()
      ensures checkboxes == old(checkboxes)[i := old(checkboxes)[i][j := checked]]
      ensures questions == old(questions) && choices == old(choices) && correctAnswers == old(correctAnswers)
      ensures pausedFrame == old(pausedFrame) && reportFile == old(reportFile)
    {
      checkboxes := checkboxes[i := checkboxes[i][j := checked]];
    }

    /** apply_settings: the number of questions is committed as soon as it is read, so a bad
        number of choices leaves the new number of questions, the old number of choices and the
        old grid.  The key is never touched.  None means no message box. */
    method ApplySettings(questionsText: string, choicesText: string) returns (notice: Option<Notice>)
      requires Valid()
      modifies this
      ensures Valid()
      ensures correctAnswers == old(correctAnswers) && pausedFrame == old(pausedFrame) && reportFile == old(reportFile)
      ensures var q := ReadCount(questionsText, QuestionsError);
              if q.Err? then
                && questions == old(questions) && choices == old(choices) && checkboxes == old(checkboxes)
                && notice == Some(Critical(q.error))
              else
              var c := ReadCount(choicesText, ChoicesError);
              if c.Err? then
                && questions == q.value && choices == old(choices) && checkboxes == old(checkboxes)
                && notice == Some(Critical(c.error))
              else
                && questions == q.value && choices == c.value && checkboxes == Unchecked(q.value, c.value)
                && notice == None
    {
      var q := ReadCount(questionsText, QuestionsError);
      if q.Err? {
        return Some(Critical(q.error));
      }
      questions := q.value;
      var c := ReadCount(choicesText, ChoicesError);
      if c.Err? {
        assert Valid();
        return Some(Critical(c.error));
      }
      CommitChoices(c.value);
      return None;
    }

    /** The end of apply_settings' try block: the number of choices is committed and the grid
        rebuilt for the committed number of questions. */
    method CommitChoices(c: nat)
      requires questions > 0 && c > 0
      modifies this
      ensures Valid()
      ensures choices == c && checkboxes == Unchecked(questions, c)
      ensures questions == old(questions) && correctAnswers == old(correctAnswers)
      ensures pausedFrame == old(pausedFrame) && reportFile == old(reportFile)
    {
      choices := c;
      CreateCheckboxes();
    }

    /** update_correct_answers: the key is emptied, then each row in turn must have exactly one
        checked box, whose column is appended; the first row that fails stops the loop with the
        answers of the rows before it kept. */
    method UpdateCorrectAnswers() returns (notice: Notice)
      modifies this
      ensures var failing := FirstFailingRow(checkboxes);
              && correctAnswers == AnswersOf(checkboxes, failing)
              && notice == if failing < |checkboxes| then Critical(QuestionError(failing + 1)) else Info(KeyUpdated)
      ensures questions == old(questions) && choices == old(choices) && checkboxes == old(checkboxes)
      ensures pausedFrame == old(pausedFrame) && reportFile == old(reportFile)
    {
      correctAnswers := [];
      var i := 0;
      while i < |checkboxes|
        invariant i <= |checkboxes|
        invariant forall k :: 0 <= k < i ==> HasOneChecked(checkboxes[k])
        invariant correctAnswers == AnswersOf(checkboxes, i)
        invariant questions == old(questions) && choices == old(choices) && checkboxes == old(checkboxes)
        invariant pausedFrame == old(pausedFrame) && reportFile == old(reportFile)
      {
        var selected := CheckedColumns(checkboxes[i]);
        if |selected| == 1 {
          AnswersOfStep(checkboxes, i);
          correctAnswers := correctAnswers + [selected[0]];
        } else {
          FirstFailingIs(checkboxes, i);
          return Critical(QuestionError(i + 1));
        }
        i := i + 1;
      }
      FirstFailingIs(checkboxes, i);
      return Info(KeyUpdated);
    }

    /** save_report: process the paused frame, number the work, append its record to report.txt
        and confirm; fmt is the :.2f formatting of the score. */
    method SaveReport(cv: Vision, fmt: real -> string) returns (notice: Notice)
      modifies this
      ensures questions == old(questions) && choices == old(choices) && correctAnswers == old(correctAnswers)
      ensures checkboxes == old(checkboxes) && pausedFrame == old(pausedFrame)
      ensures pausedFrame.None? ==> reportFile == old(reportFile) && notice == Warning(NoFrame)
      ensures pausedFrame.Some? ==>
                var res := FrameSpec(pausedFrame.value, questions, choices, correctAnswers, imageSize, cv);
                if res.Raised? then reportFile == old(reportFile) && notice == SaveFailed(FrameFault(res.fault))
                else
                  var n := NextWorkNumber(old(reportFile));
                  && reportFile == Some(old(reportFile).GetOr("") + Record(n, questions, Figures(res).0, fmt(Figures(res).1)))
                  && notice == Info("Отчет успешно добавлен в файл report.txt как 'Работа " + NatToString(n) + "'.")
    {
      if pausedFrame.None? {
        return Warning(NoFrame);
      }
      var res := ProcessVideoFrame(pausedFrame.value, questions, choices, correctAnswers, imageSize, cv);
      if res.Raised? {
        return SaveFailed(FrameFault(res.fault));
      }
      var figures := Figures(res);
      var workNumber := NextWorkNumber(reportFile);
      var newReportText := Record(workNumber, questions, figures.0, fmt(figures.1));
      reportFile := Some(reportFile.GetOr("") + newReportText);
      return Info("Отчет успешно добавлен в файл report.txt как 'Работа " + NatToString(workNumber) + "'.");
    }

    /** add_report_to_screen as written: the same record, numbered by the "Работа" already shown
        on the report screen, is appended to the screen's text and passed to load_report, which
        takes no argument; the TypeError is caught and reported, and the screen keeps its text. */
    method AddReportToScreen(cv: Vision, fmt: real -> string, screenText: string) returns (updated: string, notice: Notice)
      ensures pausedFrame.None? ==> updated == screenText && notice == Warning(NoFrame)
      ensures pausedFrame.Some? ==>
                var res := FrameSpec(pausedFrame.value, questions, choices, correctAnswers, imageSize, cv);
                if res.Raised? then updated == screenText && notice == SaveFailed(FrameFault(res.fault))
                else (updated, notice) == ScreenAsWritten(screenText, questions, Figures(res).0, fmt(Figures(res).1))
    {
      if pausedFrame.None? {
        return screenText, Warning(NoFrame);
      }
      var res := ProcessVideoFrame(pausedFrame.value, questions, choices, correctAnswers, imageSize, cv);
      if res.Raised? {
        return screenText, SaveFailed(FrameFault(res.fault));
      }
      var figures := Figures(res);
      var workNumber := NextWorkNumber(Some(screenText));
      var newReportText := Record(workNumber, questions, figures.0, fmt(figures.1));
      var updatedContent := screenText + newReportText;
      var raised := LoadReportCall([updatedContent]);
      if raised.Some? {
        return screenText, SaveFailed(raised.value);
      }
      updated, notice := updatedContent, Info(ScreenConfirmation(workNumber));
    }

    /** add_report_to_screen as its message says it behaves: load_report shows the text it is
        given, so the record is added to the screen and the success message names its number. */
    method AddReportToScreenCorrected(cv: Vision, fmt: real -> string, screenText: string) returns (updated: string, notice: Notice)
      ensures pausedFrame.None? ==> updated == screenText && notice == Warning(NoFrame)
      ensures pausedFrame.Some? ==>
                var res := FrameSpec(pausedFrame.value, questions, choices, correctAnswers, imageSize, cv);
                if res.Raised? then updated == screenText && notice == SaveFailed(FrameFault(res.fault))
                else (updated, notice) == ScreenCorrected(screenText, questions, Figures(res).0, fmt(Figures(res).1))
    {
      if pausedFrame.None? {
        return screenText, Warning(NoFrame);
      }
      var res := ProcessVideoFrame(pausedFrame.value, questions, choices, correctAnswers, imageSize, cv);
      if res.Raised? {
        return screenText, SaveFailed(FrameFault(res.fault));
      }
      var figures := Figures(res);
      var workNumber := NextWorkNumber(Some(screenText));
      var newReportText := Record(workNumber, questions, figures.0, fmt(figures.1));
      updated := screenText + newReportText;
      notice := Info(ScreenConfirmation(workNumber));
    }
  }

  /** The loop of update_correct_answers stops at row i exactly when i is the first failing row. */
  lemma FirstFailingIs(grid: seq<seq<bool>>, i: nat)
    requires i <= |grid|
    requires forall k :: 0 <= k < i ==> HasOneChecked(grid[k])
    requires i < |grid| ==> !HasOneChecked(grid[i])
    ensures FirstFailingRow(grid) == i
  {
  }
}
