/** utils.drawGrid and utils.showAnswers: the overlay drawn on the straightened sheet.
    OpenCV's cv2.line and cv2.circle are recorded as draw commands on a canvas instead of
    being rasterised, so the model states exactly what is drawn and where. */
module Drawing {
  import opened Images
  import opened Arith

  /** An OpenCV colour triple, in OpenCV's blue-green-red order. */
  datatype Colour = Bgr(b: int, g: int, r: int)

  const GridColour := Bgr(255, 255, 0)
  const Green := Bgr(10, 255, 10)
  const Red := Bgr(10, 10, 255)

  /** cv2.FILLED */
  const Filled := -1
  const LineThickness := 2
  /** Radius of the mark on the chosen answer, and of the mark on the right answer of a
      wrongly answered question. */
  const ChoiceRadius := 30
  const KeyRadius := 20

  datatype DrawCmd =
    | Line(p1: Point, p2: Point, colour: Colour, thickness: int)
    | Circle(centre: Point, radius: int, colour: Colour, thickness: int)

  /** A picture that the drawing helpers draw on in place: the pixels it was made from and
      everything drawn on it so far, oldest first. */
  class Canvas {
    const image: Image
    var marks: seq<DrawCmd>

    constructor(image: Image)
      ensures this.image == image && marks == []
    {
      this.image := image;
      marks := [];
    }
  }

  // ---------------------------------------------------------------- drawGrid

  /** Horizontal line i of a grid of `questions` rows on a w x h picture:
      int(h / questions * i), across the whole width. */
  function HLine(w: nat, h: nat, questions: nat, i: nat): (l: DrawCmd)
    requires questions > 0
    ensures l.Line? && l.p1.x == 0 && l.p2.x == w && l.p1.y == l.p2.y
    ensures i <= questions ==> 0 <= l.p1.y <= h
  {
    GridPosition(h, questions, i);
    var y := (h * i) / questions;
    Line(Point(0, y), Point(w, y), GridColour, LineThickness)
  }

  /** Vertical line j of a grid of `choices` columns: int(w / choices * j), the whole height. */
  function VLine(w: nat, h: nat, choices: nat, j: nat): (l: DrawCmd)
    requires choices > 0
    ensures l.Line? && l.p1.y == 0 && l.p2.y == h && l.p1.x == l.p2.x
    ensures j <= choices ==> 0 <= l.p1.x <= w
  {
    GridPosition(w, choices, j);
    var x := (w * j) / choices;
    Line(Point(x, 0), Point(x, h), GridColour, LineThickness)
  }

  function HLines(w: nat, h: nat, questions: nat, n: nat): seq<DrawCmd>
    requires questions > 0
  {
    seq(n, i requires 0 <= i < n => HLine(w, h, questions, i))
  }

  function VLines(w: nat, h: nat, choices: nat, n: nat): seq<DrawCmd>
    requires choices > 0
  {
    seq(n, j requires 0 <= j < n => VLine(w, h, choices, j))
  }

  /** What drawGrid draws: questions + 1 horizontal lines, then choices + 1 vertical ones. */
  function GridLines(w: nat, h: nat, questions: nat, choices: nat): (g: seq<DrawCmd>)
    requires questions > 0 && choices > 0
    ensures |g| == questions + choices + 2
    ensures forall k :: 0 <= k < |g| ==>
              && g[k].Line? && 0 <= g[k].p1.x <= w && 0 <= g[k].p2.x <= w
              && 0 <= g[k].p1.y <= h && 0 <= g[k].p2.y <= h
  {
    HLines(w, h, questions, questions + 1) + VLines(w, h, choices, choices + 1)
  }

  /** drawGrid draws on img in place and hands the same picture back. */
  method DrawGrid(img: Canvas, questions: nat, choices: nat) returns (r: Canvas)
    requires questions > 0 && choices > 0
    modifies img
    ensures r == img
    ensures img.marks == old(img.marks) + GridLines(Width(img.image), Height(img.image), questions, choices)
  {
    var w, h := Width(img.image), Height(img.image);
    var i := 0;
    while i < questions + 1
      invariant i <= questions + 1
      invariant img.marks == old(img.marks) + HLines(w, h, questions, i)
    {
      assert HLines(w, h, questions, i + 1) == HLines(w, h, questions, i) + [HLine(w, h, questions, i)];
      img.marks := img.marks + [HLine(w, h, questions, i)];
      i := i + 1;
    }
    var j := 0;
    while j < choices + 1
      invariant j <= choices + 1
      invariant img.marks == old(img.marks) + HLines(w, h, questions, questions + 1) + VLines(w, h, choices, j)
    {
      assert VLines(w, h, choices, j + 1) == VLines(w, h, choices, j) + [VLine(w, h, choices, j)];
      img.marks := img.marks + [VLine(w, h, choices, j)];
      j := j + 1;
    }
    return img;
  }

  /** The grid has questions + 1 full-width horizontal lines followed by choices + 1
      full-height vertical lines, all in the grid colour and two pixels thick. */
  lemma GridShape(w: nat, h: nat, questions: nat, choices: nat)
    requires questions > 0 && choices > 0
    ensures var g := GridLines(w, h, questions, choices);
            && |g| == questions + choices + 2
            && (forall k :: 0 <= k < |g| ==> g[k].Line? && g[k].colour == GridColour && g[k].thickness == 2)
            && (forall i :: 0 <= i <= questions ==>
                  g[i].p1.x == 0 && g[i].p2.x == w && g[i].p1.y == g[i].p2.y)
            && (forall k :: questions < k < |g| ==> g[k].p1.y == 0 && g[k].p2.y == h && g[k].p1.x == g[k].p2.x)
  {
    var g := GridLines(w, h, questions, choices);
    forall k | questions < k < |g|
      ensures g[k] == VLine(w, h, choices, k - questions - 1)
    {
    }
  }

  /** The outermost lines lie on the edges of the picture. */
  lemma GridFramesPicture(w: nat, h: nat, questions: nat, choices: nat)
    requires questions > 0 && choices > 0
    ensures var g := GridLines(w, h, questions, choices);
            && g[0].p1.y == 0 && g[questions].p1.y == h
            && g[questions + 1].p1.x == 0 && g[questions + choices + 1].p1.x == w
  {
    var g := GridLines(w, h, questions, choices);
    assert g[questions] == HLine(w, h, questions, questions);
    assert g[questions + choices + 1] == VLine(w, h, choices, choices);
    assert (h * questions) / questions == h by {
      DivOfMultiple(h, questions);
    }
    assert (w * choices) / choices == w by {
      DivOfMultiple(w, choices);
    }
  }

  /** When the picture divides evenly, every grid line falls on a multiple of the cell size,
      i.e. on the boundaries of the boxes splitBoxes cuts. */
  lemma GridOnCellBoundaries(w: nat, h: nat, questions: nat, choices: nat, i: nat, j: nat)
    requires questions > 0 && choices > 0
    requires h % questions == 0 && w % choices == 0
    requires i <= questions && j <= choices
    ensures var g := GridLines(w, h, questions, choices);
            && g[i].p1.y == i * (h / questions)
            && g[questions + 1 + j].p1.x == j * (w / choices)
  {
    var g := GridLines(w, h, questions, choices);
    assert g[i] == HLine(w, h, questions, i);
    assert g[questions + 1 + j] == VLine(w, h, choices, j);
    var bh, bw := h / questions, w / choices;
    assert h * i == (bh * i) * questions;
    assert w * j == (bw * j) * choices;
    DivOfMultiple(bh * i, questions);
    DivOfMultiple(bw * j, choices);
  }

  /** Lines further down (right) never lie above (left of) earlier ones. */
  lemma GridLinesOrdered(w: nat, h: nat, questions: nat, choices: nat, i: nat, i': nat)
    requires questions > 0 && choices > 0
    requires i <= i' <= questions
    ensures var g := GridLines(w, h, questions, choices);
            g[i].p1.y <= g[i'].p1.y
  {
    var g := GridLines(w, h, questions, choices);
    assert g[i] == HLine(w, h, questions, i) && g[i'] == HLine(w, h, questions, i');
    MulMonotone(i, i', h);
    DivLe(h * i, h * i', questions);
  }

  // --------------------------------------------------------------- showAnswers

  /** Centre of the cell in column col, row row: (col * secW + secW // 2, row * secH + secH // 2). */
  function Centre(col: int, row: int, secW: nat, secH: nat): Point {
    Point(col * secW + secW / 2, row * secH + secH / 2)
  }

  /** What showAnswers draws for question x: a filled circle of radius 30 on the chosen
      answer, green when the answer is right and red otherwise; for a wrong answer also a
      filled green circle of radius 20 on the right answer. */
  function RowMarks(myIndex: seq<int>, grading: seq<int>, ans: seq<int>, secW: nat, secH: nat, x: nat): seq<DrawCmd>
    requires x < |myIndex| && x < |grading|
    requires grading[x] != 1 ==> x < |ans|
  {
    if grading[x] == 1 then
      [Circle(Centre(myIndex[x], x, secW, secH), ChoiceRadius, Green, Filled)]
    else
      [Circle(Centre(myIndex[x], x, secW, secH), ChoiceRadius, Red, Filled),
       Circle(Centre(ans[x], x, secW, secH), KeyRadius, Green, Filled)]
  }

  /** A question gets one or two filled circles: the first on the chosen cell, green exactly when
      the question is graded 1, and for any other grade a green one on the right cell. */
  lemma RowMarksShape(myIndex: seq<int>, grading: seq<int>, ans: seq<int>, secW: nat, secH: nat, x: nat)
    requires x < |myIndex| && x < |grading|
    requires grading[x] != 1 ==> x < |ans|
    ensures var r := RowMarks(myIndex, grading, ans, secW, secH, x);
            && |r| == (if grading[x] == 1 then 1 else 2)
            && (forall k :: 0 <= k < |r| ==> r[k].Circle? && r[k].thickness == Filled)
            && r[0].centre == Centre(myIndex[x], x, secW, secH) && r[0].radius == ChoiceRadius
            && (r[0].colour == Green <==> grading[x] == 1)
            && (|r| == 2 ==> r[1] == Circle(Centre(ans[x], x, secW, secH), KeyRadius, Green, Filled))
  {
  }

  /** The number of questions among the first n that are not graded 1. */
  function WrongCount(grading: seq<int>, n: nat): (k: nat)
    requires n <= |grading|
    ensures k <= n
  {
    if n == 0 then 0 else WrongCount(grading, n - 1) + (if grading[n - 1] == 1 then 0 else 1)
  }

  /** No question is wrong exactly when all are graded 1; all are wrong exactly when none is. */
  lemma {:induction false} WrongCountExtremes(grading: seq<int>, n: nat)
    requires n <= |grading|
    ensures WrongCount(grading, n) == 0 <==> forall x :: 0 <= x < n ==> grading[x] == 1
    ensures WrongCount(grading, n) == n <==> forall x :: 0 <= x < n ==> grading[x] != 1
  {
    if n > 0 {
      WrongCountExtremes(grading, n - 1);
    }
  }

  predicate KeyCoversWrong(grading: seq<int>, ans: seq<int>, n: nat)
    requires n <= |grading|
  {
    forall x :: 0 <= x < n && grading[x] != 1 ==> x < |ans|
  }

  /** Everything showAnswers draws for the first n questions, question by question: one mark
      per question and one more per wrongly answered question. */
  function AnswerMarks(myIndex: seq<int>, grading: seq<int>, ans: seq<int>, secW: nat, secH: nat, n: nat): (r: seq<DrawCmd>)
    requires n <= |myIndex| && n <= |grading|
    requires KeyCoversWrong(grading, ans, n)
    ensures |r| == n + WrongCount(grading, n)
  {
    if n == 0 then []
    else AnswerMarks(myIndex, grading, ans, secW, secH, n - 1) + RowMarks(myIndex, grading, ans, secW, secH, n - 1)
  }

  /** showAnswers draws every question's marks on img in place. */
  method ShowAnswers(img: Canvas, myIndex: seq<int>, grading: seq<int>, ans: seq<int>, questions: nat, choices: nat)
    requires questions > 0 && choices > 0
    requires questions <= |myIndex| && questions <= |grading|
    requires KeyCoversWrong(grading, ans, questions)
    modifies img
    ensures img.marks == old(img.marks)
              + AnswerMarks(myIndex, grading, ans, Width(img.image) / choices, Height(img.image) / questions, questions)
  {
    var secW, secH := Width(img.image) / choices, Height(img.image) / questions;
    var x := 0;
    while x < questions
      invariant x <= questions
      invariant img.marks == old(img.marks) + AnswerMarks(myIndex, grading, ans, secW, secH, x)
    {
      assert AnswerMarks(myIndex, grading, ans, secW, secH, x + 1)
          == AnswerMarks(myIndex, grading, ans, secW, secH, x) + RowMarks(myIndex, grading, ans, secW, secH, x);
      var cX, cY := myIndex[x] * secW + secW / 2, x * secH + secH / 2;
      if grading[x] == 1 {
        img.marks := img.marks + [Circle(Point(cX, cY), ChoiceRadius, Green, Filled)];
      } else {
        img.marks := img.marks + [Circle(Point(cX, cY), ChoiceRadius, Red, Filled)];
        var correctAns := ans[x];
        img.marks := img.marks + [Circle(Point(correctAns * secW + secW / 2, cY), KeyRadius, Green, Filled)];
      }
      x := x + 1;
    }
  }

  /** The marks of question x sit at position x + WrongCount(grading, x): a radius-30 circle on
      the chosen cell, green exactly when the question is graded 1, and for a wrong answer a
      green radius-20 circle on the right cell right after it. */
  lemma {:induction false} QuestionMarks(myIndex: seq<int>, grading: seq<int>, ans: seq<int>, secW: nat, secH: nat, n: nat, x: nat)
    requires n <= |myIndex| && n <= |grading|
    requires KeyCoversWrong(grading, ans, n)
    requires x < n
    ensures var marks := AnswerMarks(myIndex, grading, ans, secW, secH, n);
            var k := x + WrongCount(grading, x);
            && k < |marks|
            && marks[k] == Circle(Centre(myIndex[x], x, secW, secH), ChoiceRadius,
                                  if grading[x] == 1 then Green else Red, Filled)
            && (grading[x] != 1 ==>
                  k + 1 < |marks| && marks[k + 1] == Circle(Centre(ans[x], x, secW, secH), KeyRadius, Green, Filled))
  {
    var prefix := AnswerMarks(myIndex, grading, ans, secW, secH, n - 1);
    if x < n - 1 {
      QuestionMarks(myIndex, grading, ans, secW, secH, n - 1, x);
      WrongCountMonotone(grading, x + 1, n - 1);
      assert AnswerMarks(myIndex, grading, ans, secW, secH, n)[..|prefix|] == prefix;
    }
  }

  lemma {:induction false} WrongCountMonotone(grading: seq<int>, m: nat, n: nat)
    requires m <= n <= |grading|
    ensures WrongCount(grading, m) + (n - m) >= WrongCount(grading, n) >= WrongCount(grading, m)
  {
    if m < n {
      WrongCountMonotone(grading, m, n - 1);
    }
  }

  /** A circle centred by Centre lies in the middle of its cell: the centre is inside the
      secW x secH cell at column col, row row. */
  lemma CentreInCell(col: nat, row: nat, secW: nat, secH: nat)
    requires secW > 0 && secH > 0
    ensures var c := Centre(col, row, secW, secH);
            && col * secW <= c.x < (col + 1) * secW
            && row * secH <= c.y < (row + 1) * secH
  {
    assert (col + 1) * secW == col * secW + secW;
    assert (row + 1) * secH == row * secH + secH;
  }

  /** Wrongly answered questions are the only ones with a red mark, so the number of red
      marks is the number of wrong answers. */
  lemma {:induction false} RedMarksAreWrongAnswers(myIndex: seq<int>, grading: seq<int>, ans: seq<int>, secW: nat, secH: nat, n: nat)
    requires n <= |myIndex| && n <= |grading|
    requires KeyCoversWrong(grading, ans, n)
    ensures RedCount(AnswerMarks(myIndex, grading, ans, secW, secH, n)) == WrongCount(grading, n)
  {
    if n > 0 {
      assert KeyCoversWrong(grading, ans, n - 1);
      RedMarksAreWrongAnswers(myIndex, grading, ans, secW, secH, n - 1);
      assert AnswerMarks(myIndex, grading, ans, secW, secH, n)
          == AnswerMarks(myIndex, grading, ans, secW, secH, n - 1) + RowMarks(myIndex, grading, ans, secW, secH, n - 1);
      RedCountConcat(AnswerMarks(myIndex, grading, ans, secW, secH, n - 1), RowMarks(myIndex, grading, ans, secW, secH, n - 1));
      RowRedCount(myIndex, grading, ans, secW, secH, n - 1);
    }
  }

  /** A question's marks hold one red circle when it is wrong and none otherwise. */
  lemma RowRedCount(myIndex: seq<int>, grading: seq<int>, ans: seq<int>, secW: nat, secH: nat, x: nat)
    requires x < |myIndex| && x < |grading|
    requires grading[x] != 1 ==> x < |ans|
    ensures RedCount(RowMarks(myIndex, grading, ans, secW, secH, x)) == if grading[x] == 1 then 0 else 1
  {
    var row := RowMarks(myIndex, grading, ans, secW, secH, x);
    if grading[x] != 1 {
      assert row[..1] == [row[0]];
      assert RedCount(row[..1]) == 1;
    }
  }

  function RedCount(marks: seq<DrawCmd>): nat {
    if |marks| == 0 then 0
    else RedCount(marks[..|marks| - 1]) + (if marks[|marks| - 1].colour == Red then 1 else 0)
  }

  lemma {:induction false} RedCountConcat(a: seq<DrawCmd>, b: seq<DrawCmd>)
    ensures RedCount(a + b) == RedCount(a) + RedCount(b)
  {
    if |b| > 0 {
      RedCountConcat(a, b[..|b| - 1]);
      assert (a + b)[..|a + b| - 1] == a + b[..|b| - 1];
    } else {
      assert a + b == a;
    }
  }

  /** The grid lines are never red. */
  lemma GridHasNoRed(w: nat, h: nat, questions: nat, choices: nat)
    requires questions > 0 && choices > 0
    ensures RedCount(GridLines(w, h, questions, choices)) == 0
  {
    NoRedCount(GridLines(w, h, questions, choices));
  }

  lemma {:induction false} NoRedCount(marks: seq<DrawCmd>)
    requires forall i :: 0 <= i < |marks| ==> marks[i].colour != Red
    ensures RedCount(marks) == 0
  {
    if |marks| > 0 {
      NoRedCount(marks[..|marks| - 1]);
    }
  }

  /** showAnswers reads only the first n entries of the answer key. */
  lemma {:induction false} AnswerMarksUseFirstKeys(myIndex: seq<int>, grading: seq<int>, ans: seq<int>, ans': seq<int>,
                                                   secW: nat, secH: nat, n: nat)
    requires n <= |myIndex| && n <= |grading| && n <= |ans| && n <= |ans'|
    requires forall x :: 0 <= x < n ==> ans[x] == ans'[x]
    ensures AnswerMarks(myIndex, grading, ans, secW, secH, n) == AnswerMarks(myIndex, grading, ans', secW, secH, n)
  {
    if n > 0 {
      AnswerMarksUseFirstKeys(myIndex, grading, ans, ans', secW, secH, n - 1);
    }
  }
}
