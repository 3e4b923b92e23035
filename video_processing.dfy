/** process_video_frame: one camera frame in, the graded sheet out.  The OpenCV calls are the
    fields of a Vision value; everything between them (working size, threshold, fill grid,
    selection, grading, score and the fallback on failure) is modelled exactly. */
module VideoProcessing {
  import opened Images
  import opened Results
  import opened Arith
  import opened ArgExtrema
  import opened Geometry
  import opened Grid
  import opened Drawing

  /** The OpenCV steps, as functions of their inputs.
      resize(img, w, h) is cv2.resize(img, (w, h)).
      contours(img) is cvtColor to grey, GaussianBlur((5, 5), 1), Canny(10, 70) and
      findContours(RETR_EXTERNAL), each contour with its area and its approxPolyDP corners.
      warp(img, corners, w, h) is getPerspectiveTransform from the four corners to the
      corners of a w x h picture followed by warpPerspective.
      grey(img) is cvtColor(img, COLOR_BGR2GRAY). */
  datatype Vision = Vision(
    resize: (Image, nat, nat) -> Image,
    contours: Image -> seq<Contour>,
    warp: (Image, seq<Point>, nat, nat) -> Image,
    grey: Image -> Image)

  /** Faults raised before the try block, which reach the caller. */
  datatype Fault =
    | ZeroDivision   // image_size // 0
    | ResizeFailed   // cv2.resize of an empty frame or to a zero width or height

  /** Graded is the return at the end of the try block: the straightened sheet with the
      drawn overlay, the number of right answers and the percentage.  Degraded is the
      except branch's (img, 0, 0); Raised is an exception that propagates. */
  datatype FrameResult =
    | Graded(image: Image, marks: seq<DrawCmd>, correct: nat, score: real)
    | Degraded(image: Image)
    | Raised(fault: Fault)

  /** The threshold of cv2.threshold(..., 170, 255, THRESH_BINARY_INV). */
  const MarkThreshold := 170
  const MaxValue := 255

  /** The largest multiple of n not above size: n * (size // n). */
  function WorkingSize(size: nat, n: nat): nat
    requires n > 0
  {
    MulNonneg(n, size / n);
    n * (size / n)
  }

  lemma WorkingSizeFits(size: nat, n: nat)
    requires n > 0
    ensures WorkingSize(size, n) % n == 0
    ensures WorkingSize(size, n) <= size
    ensures size - WorkingSize(size, n) < n
    ensures WorkingSize(size, n) == 0 <==> size < n
  {
    var k := size / n;
    assert size == n * k + size % n;
    DivModUnique(n * k, n, k, 0);
  }

  /** THRESH_BINARY_INV: pixels above the threshold become 0, the others 255. */
  function Threshold(g: Image): (t: Image)
    ensures Height(t) == Height(g) && Width(t) == Width(g)
  {
    seq(|g|, y requires 0 <= y < |g| =>
      seq(|g[y]|, x requires 0 <= x < |g[y]| => if g[y][x] > MarkThreshold then 0 else MaxValue))
  }

  /** A pixel of the thresholded sheet is foreground exactly when its grey value is at most 170. */
  lemma ThresholdMarksDark(g: Image, y: nat, x: nat)
    requires y < Height(g) && x < Width(g)
    ensures Threshold(g)[y][x] != 0 <==> g[y][x] <= MarkThreshold
    ensures Threshold(g)[y][x] == 0 || Threshold(g)[y][x] == MaxValue
  {
  }

  /** cv2.countNonZero */
  function CountNonZero(img: seq<seq<int>>): nat {
    if |img| == 0 then 0 else CountNonZero(img[..|img| - 1]) + RowNonZero(img[|img| - 1])
  }

  function RowNonZero(row: seq<int>): nat {
    if |row| == 0 then 0 else RowNonZero(row[..|row| - 1]) + (if row[|row| - 1] != 0 then 1 else 0)
  }

  lemma {:induction false} RowNonZeroBounds(row: seq<int>)
    ensures RowNonZero(row) <= |row|
    ensures RowNonZero(row) == 0 <==> forall x :: 0 <= x < |row| ==> row[x] == 0
  {
    if |row| > 0 {
      RowNonZeroBounds(row[..|row| - 1]);
      assert forall x :: 0 <= x < |row| - 1 ==> row[..|row| - 1][x] == row[x];
    }
  }

  /** The foreground count of a box is at most its area, and zero exactly when the box is blank. */
  lemma {:induction false} CountNonZeroBounds(img: Image)
    ensures CountNonZero(img) <= Height(img) * Width(img)
    ensures CountNonZero(img) == 0 <==> forall y, x :: 0 <= y < Height(img) && 0 <= x < Width(img) ==> img[y][x] == 0
  {
    if |img| > 0 {
      var init := img[..|img| - 1];
      var last := img[|img| - 1];
      assert forall y :: 0 <= y < |init| ==> init[y] == img[y];
      CountNonZeroBounds(init);
      RowNonZeroBounds(last);
      assert Height(img) * Width(img) == Height(init) * Width(img) + Width(img);
      if |init| > 0 {
        assert Width(init) == Width(img);
      } else {
        MulNonneg(Height(init), Width(img));
      }
    }
  }

  /** The fill grid: cell (r, k) holds the foreground count of box r * choices + k. */
  function FillGrid(boxes: seq<Image>, questions: nat, choices: nat): (fill: seq<seq<int>>)
    requires |boxes| == questions * choices
    ensures |fill| == questions && forall r :: 0 <= r < questions ==> |fill[r]| == choices
  {
    seq(questions, r requires 0 <= r < questions =>
      seq(choices, k requires 0 <= k < choices => BoxCount(boxes, questions, choices, r, k)))
  }

  function BoxCount(boxes: seq<Image>, questions: nat, choices: nat, r: nat, k: nat): int
    requires |boxes| == questions * choices && r < questions && k < choices
  {
    MulMonotone(r + 1, questions, choices);
    CountNonZero(boxes[BoxIndex(r, k, choices)])
  }

  /** Fill cell [i // choices][i % choices] holds the foreground count of box i. */
  lemma FillCellOfBox(boxes: seq<Image>, questions: nat, choices: nat, i: nat)
    requires |boxes| == questions * choices && i < |boxes|
    ensures choices > 0 && i / choices < questions
    ensures FillGrid(boxes, questions, choices)[i / choices][i % choices] == CountNonZero(boxes[i])
  {
    CellFits(i, questions, choices, 0, 0);
    assert i == BoxIndex(i / choices, i % choices, choices);
  }

  /** The loop of lines 38-41: myPixelVal, preallocated with zeros, filled box by box. */
  method FillPixelCounts(boxes: seq<Image>, questions: nat, choices: nat) returns (vals: array2<int>)
    requires questions > 0 && choices > 0 && |boxes| == questions * choices
    ensures fresh(vals) && vals.Length0 == questions && vals.Length1 == choices
    ensures forall r, k :: 0 <= r < questions && 0 <= k < choices ==>
              vals[r, k] == FillGrid(boxes, questions, choices)[r][k]
  {
    vals := new int[questions, choices]((_, _) => 0);
    var i := 0;
    while i < |boxes|
      invariant 0 <= i <= |boxes|
      invariant vals.Length0 == questions && vals.Length1 == choices
      invariant forall r, k :: 0 <= r < questions && 0 <= k < choices ==>
                  vals[r, k] == if BoxIndex(r, k, choices) < i then BoxCount(boxes, questions, choices, r, k) else 0
    {
      var row, col := i / choices, i % choices;
      CellFits(i, questions, choices, 0, 0);
      assert BoxIndex(row, col, choices) == i;
      vals[row, col] := CountNonZero(boxes[i]);
      forall r, k | 0 <= r < questions && 0 <= k < choices
        ensures vals[r, k] == if BoxIndex(r, k, choices) < i + 1 then BoxCount(boxes, questions, choices, r, k) else 0
      {
        if r != row || k != col {
          RowMajor(r, k, choices);
        }
      }
      i := i + 1;
    }
    forall r, k | 0 <= r < questions && 0 <= k < choices
      ensures BoxIndex(r, k, choices) < |boxes|
    {
      MulMonotone(r + 1, questions, choices);
    }
  }

  /** The rows of a filled array, as values. */
  function Rows(vals: array2<int>): seq<seq<int>>
    reads vals
  {
    seq(vals.Length0, r requires 0 <= r < vals.Length0 reads vals =>
      seq(vals.Length1, k requires 0 <= k < vals.Length1 reads vals => vals[r, k]))
  }

  lemma RowsOfFill(vals: array2<int>, boxes: seq<Image>, questions: nat, choices: nat)
    requires |boxes| == questions * choices
    requires vals.Length0 == questions && vals.Length1 == choices
    requires forall r, k :: 0 <= r < questions && 0 <= k < choices ==>
               vals[r, k] == FillGrid(boxes, questions, choices)[r][k]
    ensures Rows(vals) == FillGrid(boxes, questions, choices)
  {
    var fill, rows := FillGrid(boxes, questions, choices), Rows(vals);
    forall r | 0 <= r < questions
      ensures rows[r] == fill[r]
    {
      assert |rows[r]| == choices;
    }
  }

  /** myIndex: np.argmax of every row. */
  function Selections(fill: seq<seq<int>>): (sel: seq<nat>)
    requires forall r :: 0 <= r < |fill| ==> |fill[r]| > 0
    ensures |sel| == |fill|
    ensures forall r :: 0 <= r < |fill| ==> IsFirstMax(fill[r], sel[r])
  {
    seq(|fill|, r requires 0 <= r < |fill| => FirstArgMax(fill[r]))
  }

  /** A blank sheet (every count zero) selects the first choice in every row. */
  lemma BlankSheetSelectsFirst(fill: seq<seq<int>>)
    requires forall r :: 0 <= r < |fill| ==> |fill[r]| > 0
    requires forall r, k :: 0 <= r < |fill| && 0 <= k < |fill[r]| ==> fill[r][k] == 0
    ensures forall r :: 0 <= r < |fill| ==> Selections(fill)[r] == 0
  {
    forall r | 0 <= r < |fill|
      ensures Selections(fill)[r] == 0
    {
      ConstantRowSelectsFirst(fill[r]);
    }
  }

  /** grading: 1 where the key agrees with the selection, else 0. */
  function Grading(sel: seq<nat>, key: seq<int>, n: nat): (g: seq<int>)
    requires n <= |sel| && n <= |key|
    ensures |g| == n
    ensures forall i :: 0 <= i < n ==> (g[i] == 1 <==> key[i] == sel[i]) && (g[i] == 0 || g[i] == 1)
  {
    seq(n, i requires 0 <= i < n => if key[i] == sel[i] then 1 else 0)
  }

  /** sum() of the first n entries. */
  function Sum(s: seq<int>, n: nat): int
    requires n <= |s|
  {
    if n == 0 then 0 else Sum(s, n - 1) + s[n - 1]
  }

  /** The number of right answers is between 0 and n, it is n exactly when every selection
      matches the key, and together with the wrong answers it makes n. */
  lemma {:induction false} GradingSum(sel: seq<nat>, key: seq<int>, n: nat, m: nat)
    requires n <= |sel| && n <= |key| && m <= n
    ensures var g := Grading(sel, key, n);
            && 0 <= Sum(g, m) <= m
            && (Sum(g, m) == m <==> forall i :: 0 <= i < m ==> key[i] == sel[i])
            && Sum(g, m) + WrongCount(g, m) == m
  {
    if m > 0 {
      GradingSum(sel, key, n, m - 1);
    }
  }

  /** score = sum(grading) / questions * 100 */
  function Score(correct: nat, questions: nat): (s: real)
    requires questions > 0
    ensures s * questions as real == correct as real * 100.0
  {
    (correct as real / questions as real) * 100.0
  }

  lemma ScoreBounds(correct: nat, questions: nat)
    requires questions > 0 && correct <= questions
    ensures 0.0 <= Score(correct, questions) <= 100.0
    ensures Score(correct, questions) == 100.0 <==> correct == questions
  {
    var f := correct as real / questions as real;
    assert f * (questions as real) == correct as real;
    assert f <= 1.0 by {
      if f > 1.0 {
        assert false;
      }
    }
  }

  /** The corners the sheet is warped onto: top-left, top-right, bottom-left, bottom-right. */
  function TargetCorners(w: nat, h: nat): seq<Point> {
    [Point(0, 0), Point(w, 0), Point(0, h), Point(w, h)]
  }

  /** reorder puts the target rectangle in the order the warp pairs it with, so the corners
      it produces are paired with the right target corners. */
  lemma ReorderMatchesTarget(w: nat, h: nat)
    requires w > 0 && h > 0
    ensures Corners(TargetCorners(w, h)) == TargetCorners(w, h)
  {
    var t := TargetCorners(w, h);
    CornersTakeFirstExtremes(t, 0, 1, 2, 3);
  }

  /** process_video_frame as a function of its inputs. */
  function FrameSpec(img: Image, questions: nat, choices: nat, key: seq<int>, size: nat, cv: Vision): (r: FrameResult)
    ensures r.Raised? ==> (r.fault == Fault.ZeroDivision <==> questions == 0 || choices == 0)
    ensures !r.Raised? ==> questions > 0 && choices > 0 && Height(img) > 0 && Width(img) > 0
    ensures r.Degraded? ==> r.image == cv.resize(img, WorkingSize(size, choices), WorkingSize(size, questions))
    ensures r.Graded? ==> |key| >= questions
  {
    if choices == 0 || questions == 0 then Raised(Fault.ZeroDivision)
    else
      var w, h := WorkingSize(size, choices), WorkingSize(size, questions);
      if Height(img) == 0 || Width(img) == 0 || w == 0 || h == 0 then Raised(ResizeFailed)
      else Analyse(cv.resize(img, w, h), questions, choices, key, w, h, cv)
  }

  /** The try block, on the resized frame. */
  function Analyse(work: Image, questions: nat, choices: nat, key: seq<int>, w: nat, h: nat, cv: Vision): (r: FrameResult)
    requires questions > 0 && choices > 0
    ensures !r.Raised?
    ensures r.Degraded? ==> r.image == work
    ensures r.Graded? ==> |key| >= questions && Quadrilaterals(cv.contours(work)) != []
  {
    var rectCon := SortByArea(Quadrilaterals(cv.contours(work)));
    if |rectCon| < 1 then Degraded(work)
    else
      var biggest := rectCon[0].approx;
      if |biggest| == 0 then Degraded(work)
      else if |biggest| != 4 then Degraded(work)
      else
        var warped := cv.warp(work, Corners(biggest), w, h);
        match Partition(Threshold(cv.grey(warped)), questions, choices)
        case Err(_) => Degraded(work)
        case Ok(boxes) =>
          if |key| < questions then Degraded(work)
          else GradeBoxes(warped, boxes, questions, choices, key)
  }

  /** Lines 38-55 once the sheet is cut into boxes and the key is long enough. */
  function GradeBoxes(warped: Image, boxes: seq<Image>, questions: nat, choices: nat, key: seq<int>): (r: FrameResult)
    requires questions > 0 && choices > 0
    requires |boxes| == questions * choices && |key| >= questions
    ensures r.Graded?
  {
    var sel := Selections(FillGrid(boxes, questions, choices));
    var grading := Grading(sel, key, questions);
    GradingSum(sel, key, questions, questions);
    var correct := Sum(grading, questions);
    Graded(warped, Overlay(warped, sel, grading, key, questions, choices), correct, Score(correct, questions))
  }

  /** showAnswers, then drawGrid, on the straightened sheet. */
  function Overlay(warped: Image, sel: seq<nat>, grading: seq<int>, key: seq<int>, questions: nat, choices: nat): seq<DrawCmd>
    requires questions > 0 && choices > 0
    requires |sel| == questions && |grading| == questions && |key| >= questions
  {
    AnswerMarks(sel, grading, key, Width(warped) / choices, Height(warped) / questions, questions)
      + GridLines(Width(warped), Height(warped), questions, choices)
  }

  /** process_video_frame */
  method ProcessVideoFrame(img: Image, questions: nat, choices: nat, key: seq<int>, size: nat, cv: Vision)
    returns (res: FrameResult)
    ensures res == FrameSpec(img, questions, choices, key, size, cv)
  {
    if choices == 0 || questions == 0 {
      return Raised(Fault.ZeroDivision);
    }
    var newWidth, newHeight := WorkingSize(size, choices), WorkingSize(size, questions);
    if Height(img) == 0 || Width(img) == 0 || newWidth == 0 || newHeight == 0 {
      return Raised(ResizeFailed);
    }
    var work := cv.resize(img, newWidth, newHeight);
    res := AnalyseFrame(work, questions, choices, key, newWidth, newHeight, cv);
  }

  /** The try block of process_video_frame. */
  method AnalyseFrame(work: Image, questions: nat, choices: nat, key: seq<int>, newWidth: nat, newHeight: nat, cv: Vision)
    returns (res: FrameResult)
    requires questions > 0 && choices > 0
    ensures res == Analyse(work, questions, choices, key, newWidth, newHeight, cv)
  {
    var rectCon := RectContour(cv.contours(work));
    if |rectCon| < 1 {
      return Degraded(work);
    }
    var biggestPoints := rectCon[0].approx;
    if |biggestPoints| == 0 {
      return Degraded(work);
    }
    if |biggestPoints| != 4 {
      return Degraded(work);
    }
    var ordered := Reorder(biggestPoints);
    var warped := cv.warp(work, ordered[..], newWidth, newHeight);
    var thresh := Threshold(cv.grey(warped));
    var split := SplitBoxes(thresh, questions, choices);
    if split.Err? {
      return Degraded(work);
    }
    if |key| < questions {
      return Degraded(work);
    }
    res := GradeFrame(warped, split.value, questions, choices, key);
  }

  /** Lines 37-55: fill grid, selection, grading, score and the overlay. */
  method GradeFrame(warped: Image, boxes: seq<Image>, questions: nat, choices: nat, key: seq<int>)
    returns (res: FrameResult)
    requires questions > 0 && choices > 0
    requires |boxes| == questions * choices && |key| >= questions
    ensures res == GradeBoxes(warped, boxes, questions, choices, key)
  {
    var myPixelVal := FillPixelCounts(boxes, questions, choices);
    RowsOfFill(myPixelVal, boxes, questions, choices);
    var myIndex := Selections(Rows(myPixelVal));
    var grading := Grading(myIndex, key, questions);
    GradingSum(myIndex, key, questions, questions);
    var correct := Sum(grading, questions);
    var score := Score(correct, questions);
    var marks := DrawOverlay(warped, myIndex, grading, key, questions, choices);
    return Graded(warped, marks, correct, score);
  }

  /** Lines 51-52: showAnswers and drawGrid on a canvas over the straightened sheet. */
  method DrawOverlay(warped: Image, sel: seq<nat>, grading: seq<int>, key: seq<int>, questions: nat, choices: nat)
    returns (marks: seq<DrawCmd>)
    requires questions > 0 && choices > 0
    requires |sel| == questions && |grading| == questions && |key| >= questions
    ensures marks == Overlay(warped, sel, grading, key, questions, choices)
  {
    var canvas := new Canvas(warped);
    ShowAnswers(canvas, sel, grading, key, questions, choices);
    var _ := DrawGrid(canvas, questions, choices);
    marks := canvas.marks;
  }

  // ------------------------------------------------------------ properties of the pipeline

  /** What a successful grading returns: the count of right answers, at most `questions`, and
      a score between 0 and 100 that is 100 exactly when every selection matches the key. */
  lemma GradeBoxesScore(warped: Image, boxes: seq<Image>, questions: nat, choices: nat, key: seq<int>)
    requires questions > 0 && choices > 0
    requires |boxes| == questions * choices && |key| >= questions
    ensures var r := GradeBoxes(warped, boxes, questions, choices, key);
            var sel := Selections(FillGrid(boxes, questions, choices));
            && r.image == warped
            && r.correct <= questions
            && 0.0 <= r.score <= 100.0
            && (r.score == 100.0 <==> r.correct == questions)
            && (r.correct == questions <==> forall i :: 0 <= i < questions ==> key[i] == sel[i])
  {
    var sel := Selections(FillGrid(boxes, questions, choices));
    GradingSum(sel, key, questions, questions);
    ScoreBounds(Sum(Grading(sel, key, questions), questions), questions);
  }

  /** The overlay of a successful grading has one red mark per wrong answer. */
  lemma GradeBoxesRedMarks(warped: Image, boxes: seq<Image>, questions: nat, choices: nat, key: seq<int>)
    requires questions > 0 && choices > 0
    requires |boxes| == questions * choices && |key| >= questions
    ensures var r := GradeBoxes(warped, boxes, questions, choices, key);
            r.correct <= questions && RedCount(r.marks) == questions - r.correct
  {
    var sel := Selections(FillGrid(boxes, questions, choices));
    GradingSum(sel, key, questions, questions);
    OverlayRedMarks(warped, sel, Grading(sel, key, questions), key, questions, choices);
  }

  lemma OverlayRedMarks(warped: Image, sel: seq<nat>, grading: seq<int>, key: seq<int>, questions: nat, choices: nat)
    requires questions > 0 && choices > 0
    requires |sel| == questions && |grading| == questions && |key| >= questions
    ensures RedCount(Overlay(warped, sel, grading, key, questions, choices)) == WrongCount(grading, questions)
  {
    var secW, secH := Width(warped) / choices, Height(warped) / questions;
    var answers := AnswerMarks(sel, grading, key, secW, secH, questions);
    var grid := GridLines(Width(warped), Height(warped), questions, choices);
    RedMarksAreWrongAnswers(sel, grading, key, secW, secH, questions);
    GridHasNoRed(Width(warped), Height(warped), questions, choices);
    RedCountConcat(answers, grid);
  }

  /** Grading reads only the first `questions` entries of the key. */
  lemma GradeBoxesUsesFirstKeys(warped: Image, boxes: seq<Image>, questions: nat, choices: nat, key: seq<int>)
    requires questions > 0 && choices > 0
    requires |boxes| == questions * choices && |key| >= questions
    ensures GradeBoxes(warped, boxes, questions, choices, key) == GradeBoxes(warped, boxes, questions, choices, key[..questions])
  {
    var short := key[..questions];
    var sel := Selections(FillGrid(boxes, questions, choices));
    var grading := Grading(sel, key, questions);
    assert grading == Grading(sel, short, questions);
    AnswerMarksUseFirstKeys(sel, grading, key, short, Width(warped) / choices, Height(warped) / questions, questions);
  }

  /** The exceptions that escape: a zero `questions` or `choices` at the integer division,
      and an empty frame or a zero working size at cv2.resize, both before the try block. */
  lemma RaisedBeforeTry(img: Image, questions: nat, choices: nat, key: seq<int>, size: nat, cv: Vision)
    ensures var r := FrameSpec(img, questions, choices, key, size, cv);
            && (r.Raised? <==> questions == 0 || choices == 0 || Height(img) == 0 || Width(img) == 0
                               || size < choices || size < questions)
            && (r.Raised? ==> (r.fault == Fault.ZeroDivision <==> questions == 0 || choices == 0))
  {
    if questions > 0 && choices > 0 {
      WorkingSizeFits(size, choices);
      WorkingSizeFits(size, questions);
    }
  }

  /** The resized frame the contours are searched in. */
  function WorkingFrame(img: Image, questions: nat, choices: nat, size: nat, cv: Vision): Image
    requires questions > 0 && choices > 0
  {
    cv.resize(img, WorkingSize(size, choices), WorkingSize(size, questions))
  }

  /** A graded frame needed a quadrilateral contour and a key of at least `questions` entries;
      its count, score and red marks are those of GradeBoxesScore and GradeBoxesRedMarks. */
  lemma GradedFrame(img: Image, questions: nat, choices: nat, key: seq<int>, size: nat, cv: Vision)
    requires FrameSpec(img, questions, choices, key, size, cv).Graded?
    ensures questions > 0 && choices > 0 && |key| >= questions
    ensures Quadrilaterals(cv.contours(WorkingFrame(img, questions, choices, size, cv))) != []
    ensures var r := FrameSpec(img, questions, choices, key, size, cv);
            && r.correct <= questions
            && 0.0 <= r.score <= 100.0
            && (r.score == 100.0 <==> r.correct == questions)
            && RedCount(r.marks) == questions - r.correct
  {
    var w, h := WorkingSize(size, choices), WorkingSize(size, questions);
    var work := cv.resize(img, w, h);
    var rectCon := SortByArea(Quadrilaterals(cv.contours(work)));
    assert |rectCon| == |Quadrilaterals(cv.contours(work))| by {
      assert multiset(rectCon) == multiset(Quadrilaterals(cv.contours(work)));
    }
    var warped := cv.warp(work, Corners(rectCon[0].approx), w, h);
    var boxes := Partition(Threshold(cv.grey(warped)), questions, choices).value;
    GradeBoxesScore(warped, boxes, questions, choices, key);
    GradeBoxesRedMarks(warped, boxes, questions, choices, key);
  }

  /** Extra key entries beyond `questions` change nothing. */
  lemma ExtraKeysIgnored(img: Image, questions: nat, choices: nat, key: seq<int>, size: nat, cv: Vision)
    requires |key| >= questions
    ensures FrameSpec(img, questions, choices, key, size, cv) == FrameSpec(img, questions, choices, key[..questions], size, cv)
  {
    if FrameSpec(img, questions, choices, key, size, cv).Graded? {
      GradedFrame(img, questions, choices, key, size, cv);
      var w, h := WorkingSize(size, choices), WorkingSize(size, questions);
      var work := cv.resize(img, w, h);
      var rectCon := SortByArea(Quadrilaterals(cv.contours(work)));
      var warped := cv.warp(work, Corners(rectCon[0].approx), w, h);
      var boxes := Partition(Threshold(cv.grey(warped)), questions, choices).value;
      GradeBoxesUsesFirstKeys(warped, boxes, questions, choices, key);
    }
  }

  /** The warp yields a picture of the requested size (for a positive height; a picture without
      rows has no width) and the grey conversion keeps the size. */
  ghost predicate KeepsSizes(cv: Vision) {
    && (forall img, corners, w: nat, h: nat | h > 0 ::
          Height(cv.warp(img, corners, w, h)) == h && Width(cv.warp(img, corners, w, h)) == w)
    && (forall img :: Height(cv.grey(img)) == Height(img) && Width(cv.grey(img)) == Width(img))
  }

  /** A blank picture of the requested size. */
  function BlankPicture(w: nat, h: nat): (b: Image)
    ensures Height(b) == h && (h > 0 ==> Width(b) == w)
  {
    seq(h, _ => seq(w, _ => 0))
  }

  /** Size-keeping OpenCV steps exist: a warp onto a blank picture of the requested size and the
      identity as grey conversion. */
  lemma SizeKeepingVisionExists()
    ensures exists cv :: KeepsSizes(cv)
  {
    var cv := Vision((img, w, h) => img, img => [], (img, corners, w, h) => BlankPicture(w, h), img => img);
    assert KeepsSizes(cv);
  }

  /** With size-keeping OpenCV steps the straightened and thresholded sheet is exactly the
      working size, which the grid divides. */
  lemma SheetDivides(work: Image, corners: seq<Point>, questions: nat, choices: nat, size: nat, cv: Vision)
    requires questions > 0 && choices > 0 && size >= questions && size >= choices
    requires KeepsSizes(cv)
    ensures Partition(Threshold(cv.grey(cv.warp(work, corners, WorkingSize(size, choices), WorkingSize(size, questions)))),
                      questions, choices).Ok?
  {
    var w, h := WorkingSize(size, choices), WorkingSize(size, questions);
    WorkingSizeFits(size, choices);
    WorkingSizeFits(size, questions);
    var thresh := Threshold(cv.grey(cv.warp(work, corners, w, h)));
    assert Height(thresh) == h && Width(thresh) == w;
  }

  /** With size-keeping OpenCV steps the grid always divides the straightened sheet, so a frame
      that gets past the resize is graded exactly when it has a quadrilateral contour and the
      key is long enough, and falls back to the working frame otherwise. */
  lemma GradedIffSheetFound(img: Image, questions: nat, choices: nat, key: seq<int>, size: nat, cv: Vision)
    requires questions > 0 && choices > 0 && Height(img) > 0 && Width(img) > 0
    requires size >= questions && size >= choices
    requires KeepsSizes(cv)
    ensures var r := FrameSpec(img, questions, choices, key, size, cv);
            && (r.Graded? <==> Quadrilaterals(cv.contours(WorkingFrame(img, questions, choices, size, cv))) != []
                               && |key| >= questions)
            && (!r.Graded? ==> r == Degraded(WorkingFrame(img, questions, choices, size, cv)))
  {
    WorkingSizeFits(size, choices);
    WorkingSizeFits(size, questions);
    var w, h := WorkingSize(size, choices), WorkingSize(size, questions);
    var work := WorkingFrame(img, questions, choices, size, cv);
    assert FrameSpec(img, questions, choices, key, size, cv) == Analyse(work, questions, choices, key, w, h, cv);
    var quads := Quadrilaterals(cv.contours(work));
    if quads != [] {
      var rectCon := SortByArea(quads);
      assert rectCon != [] by {
        assert multiset(rectCon) == multiset(quads);
        assert quads[0] in multiset(rectCon);
      }
      assert rectCon[0] in quads by {
        assert rectCon[0] in multiset(quads);
      }
      SheetDivides(work, Corners(rectCon[0].approx), questions, choices, size, cv);
      AnalyseOfDividedSheet(work, questions, choices, key, w, h, cv);
    }
  }

  /** Once the biggest quadrilateral's sheet divides into the grid, the try block grades exactly
      when the key is long enough. */
  lemma AnalyseOfDividedSheet(work: Image, questions: nat, choices: nat, key: seq<int>, w: nat, h: nat, cv: Vision)
    requires questions > 0 && choices > 0
    requires var rectCon := SortByArea(Quadrilaterals(cv.contours(work)));
             && rectCon != [] && IsQuadrilateral(rectCon[0])
             && Partition(Threshold(cv.grey(cv.warp(work, Corners(rectCon[0].approx), w, h))), questions, choices).Ok?
    ensures var r := Analyse(work, questions, choices, key, w, h, cv);
            && (r.Graded? <==> |key| >= questions)
            && (!r.Graded? ==> r == Degraded(work))
  {
  }
}
