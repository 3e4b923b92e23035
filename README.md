# ScannerTests answer-sheet grader in Dafny

ScannerTests grades multiple-choice answer sheets held up to a camera. The core has four
parts, and each is modelled here.

- **process_video_frame** (`video_processing.py`) does the following to each frame:
  - resizes it to a working size that the grid divides;
  - finds the largest four-cornered contour and orders its corners;
  - straightens the sheet and thresholds it;
  - cuts it into a `questions x choices` grid of boxes and counts the marked pixels of each box;
  - takes the fullest box of every row as the chosen answer, compares the choices with the answer key, and computes the score;
  - draws the result on the sheet.

  A frame in which anything goes wrong inside the `try` block comes back as the resized frame with zero right answers and a zero score.
- **The helpers of `utils.py`** are `reorder`, `rectContour`, `splitBoxes`, `drawGrid` and `showAnswers`.
- **The configuration window `OMRApp`** (`omr_gui.py`) does the following:
  - reads the grid size from two entry fields;
  - builds the checkbox grid;
  - reads the answer key from the checkboxes;
  - numbers each saved work "Работа n", appending the work to `report.txt` or to the report screen.
- **The report screen** (`report_screen.py`) does the following:
  - recomputes each work's percentage;
  - grades it against four criterion fields, whose minimum percentages it reads with `parse_percentage`.

The modules and what each models:

| module | what it models |
|---|---|
| `Results`, `Images` | `Option`/`Result`, and a picture as a rectangular `seq<seq<int>>` |
| `ArgExtrema` | `np.argmax` / `np.argmin`: the first index of the extreme value |
| `Text` | the Python string operations the code relies on: `strip`, `split(sep)[0]`, `replace(ch, "")`, `count`, `str(n)`, and `int()`/`float()` on plain base-10 text |
| `Geometry` | `reorder`, and `rectContour` with its stable sort by decreasing area |
| `Grid` | `splitBoxes` |
| `Drawing` | `drawGrid` and `showAnswers`, drawing on a `Canvas` object that records every `cv2.line` / `cv2.circle` call in place |
| `VideoProcessing` | `process_video_frame`: a pure specification `FrameSpec`, the methods that follow the source step by step, and the lemmas about the pipeline |
| `OmrGui` | the `OMRApp` class with its fields, the settings, key and report-numbering methods |
| `ReportScreen` | `grade_work`, `parse_percentage` and the percentage formula |

The OpenCV calls are the fields of a `Vision` value: resize, the contour search with each contour's area and polygon, the perspective warp, and the grey conversion. Everything between those calls is modelled exactly, with exact arithmetic:
- the working size;
- the 170 threshold;
- the pixel counts;
- the selection;
- the grading;
- the score;
- the corner order;
- the filter and the sort;
- the grid cut;
- the drawn marks.

Main results:
- A frame is graded exactly when a quadrilateral contour is found and the key is long enough, provided the warp and the grey conversion keep sizes; otherwise it falls back to the working frame (`GradedIffSheetFound`).
- A graded frame reports at most `questions` right answers. Its score lies between 0 and 100, and is 100 exactly when every selection matches the key. It carries one red mark per wrong answer.
- Provided the grey conversion, blur and edge detection before the `try` block accept the resized frame, only two exceptions escape `process_video_frame`, both from before the `try` block:
  - a zero grid size,
  - or a resize to an empty picture.
- `reorder` puts the target rectangle in exactly the order the warp pairs it with. When the sum and difference keys tie, as for a sheet turned by 45 degrees, the result depends on the order in which the vertices are listed.
- The boxes of `splitBoxes` cover the sheet exactly once, row by row.
- `apply_settings` commits the number of questions before it reads the number of choices.
- `update_correct_answers` keeps the answers of the rows before the first row without exactly one checked box.
- Successive saves are numbered 1, 2, 3, ….
- As written, `add_report_to_screen` never adds anything to the report screen. It passes the new text to `load_report`, which takes no argument, and the TypeError this raises is reported as a failed save (see Findings).
- With the default criteria, every work that has questions gets at least "2", and a perfect work gets "5".

Where the written description and the code disagree, the model follows the code. For `reorder`, the difference key is `np.diff(myPoints, axis=1)`, which is `y - x`, not `x - y`. The code therefore takes the top-right corner as the point with the smallest `y - x`, and the bottom-left as the one with the largest.

## Model

| member | source | states |
|---|---|---|
| Arith.GridPosition | utils.py:92-98 | `int(len / n * i)`, taken as the floor of `len * i / n`, is the largest value whose `n`-fold does not pass `len * i`, and lies in `[0, len]` for `i <= n` |
| ArgExtrema.FirstArgMax | video_processing.py:43 | `np.argmax` of a non-empty row is an index holding the row's maximum, with every earlier entry strictly smaller |
| ArgExtrema.FirstArgMin | utils.py:50-53 | `np.argmin` is an index holding the minimum, with every earlier entry strictly larger |
| ArgExtrema.FirstMaxIsUnique | video_processing.py:43 | any index that is the first maximum is the one `np.argmax` returns |
| ArgExtrema.FirstMinIsUnique | utils.py:50-53 | any index that is the first minimum is the one `np.argmin` returns |
| ArgExtrema.TieGoesToFirst | video_processing.py:43 | a tie goes to the earlier choice: `[5, 5, 3]` selects 0 |
| ArgExtrema.ConstantRowSelectsFirst | video_processing.py:43 | an unmarked (constant) row selects choice 0 |
| ArgExtrema.StrictMaximumIsSelected | video_processing.py:43 | a box strictly fuller than the others in its row is the one selected |
| Text.TrimStart | report_screen.py:142 | `lstrip` removes exactly the leading whitespace: a suffix of the input that does not start with whitespace, and everything cut off is whitespace |
| Text.TrimEnd | report_screen.py:142 | `rstrip` removes exactly the trailing whitespace |
| Text.Strip | report_screen.py:142 | the result of `strip()` neither starts nor ends with whitespace, and text without whitespace at either end is unchanged |
| Text.BeforeFirst | report_screen.py:142 | `split(sep)[0]` is a prefix without `sep`, followed in the input by `sep` if it is shorter |
| Text.RemoveAll | report_screen.py:142 | `replace("%", "")` leaves no `%` and every other character with its count |
| Text.BeforeFirstOfPrefix | report_screen.py:142 | for `d + sep + rest` with no `sep` in `d`, `split(sep)[0]` is `d` |
| Text.BeforeFirstAll | report_screen.py:142 | text without `sep` is not split |
| Text.RemoveAbsent | report_screen.py:142 | removing an absent character changes nothing |
| Text.NatToString | omr_gui.py:150-165 | `str(n)` is a non-empty string of decimal digits |
| Text.NatToStringValue | omr_gui.py:150-165 | `str(n)` reads back as `n` |
| Text.StripDigits | report_screen.py:142 | `strip()` leaves a numeral alone |
| Text.StripKeepsAbsent | report_screen.py:142 | `strip()` adds no character, so a character absent from the input is absent from the result |
| Text.ParseInt | omr_gui.py:176 | `int()` accepts only text that is non-empty once stripped, and gives a negative value only after a leading `-` |
| Text.ParseIntAccepts | omr_gui.py:176 | accepted text starts, once stripped, with a digit or a sign, and everything after its first character is a digit |
| Text.ParseNumeral | omr_gui.py:176 | `int()` of a numeral is its value |
| Text.ParseNegativeNumeral | omr_gui.py:176-177 | `int()` of `-` and a numeral is the negated value |
| Text.ParseMinusDigits | omr_gui.py:176-177 | stripped text made of `-` and digits reads as the negated value of the digits |
| Text.ParseIntRoundTrip | omr_gui.py:176-182 | `int(str(i)) == i` for every integer |
| Text.DigitsBelow | report_screen.py:142 | `n` digits stand for less than `10^n` |
| Text.RatioBelowOne | report_screen.py:142 | `a / b` lies in `[0, 1)` for `a < b` |
| Text.FractionValue | report_screen.py:142 | the digits after the point are worth at least 0 and less than 1 |
| Text.DecimalParts | report_screen.py:142 | a number read from its whole and fractional digits is non-negative and has at least one digit |
| Text.UnsignedDecimal | report_screen.py:142 | an unsigned decimal `float()` accepts is non-empty and non-negative |
| Text.ParseDecimal | report_screen.py:142 | `float()` accepts only text that is non-empty once stripped, and gives a negative value only after a leading `-` |
| Text.ParseDecimalOfNat | report_screen.py:142 | `float(str(n)) == n` |
| Text.UnsignedDecimalOfDigits | report_screen.py:142 | a numeral without a point reads as its value |
| Text.WholeWithoutPoint | report_screen.py:142 | text without a point is all whole digits and no fraction |
| Text.NoFraction | report_screen.py:142 | whole digits with an empty fraction read as their value |
| Text.CountWithoutFirstChar | omr_gui.py:163 | text without the pattern's first letter has `count` 0 |
| Text.CountConcat | omr_gui.py:163 | for a pattern that cannot overlap itself, `count` over `a + b`, where `b` starts with the pattern, is the sum of the counts |
| Geometry.Keys | utils.py:49-52 | the key of every corner: `x + y` for `sum(1)`, `y - x` for `np.diff(axis=1)` |
| Geometry.ArgExtreme | utils.py:50-54 | the index `np.argmin` / `np.argmax` picks lies among the four points |
| Geometry.Extreme | utils.py:50-54 | the chosen point is one of the inputs, and no input has a smaller (resp. larger) key |
| Geometry.Corners | utils.py:46-55 | the four slots are input points: top-left and bottom-right have the least and largest `x + y`, top-right and bottom-left the least and largest `y - x` |
| Geometry.Reorder | utils.py:46-55 | the fresh 4-slot array, filled slot by slot, holds `Corners` of the input |
| Geometry.CornersTakeFirstExtremes | utils.py:50-54 | on ties each slot takes the first point in input order that attains the extreme |
| Geometry.ExtremeIgnoresOrder | utils.py:50-54 | when one point value attains an extreme, listing the points in another order picks the same point |
| Geometry.CornersIgnoreInputOrder | utils.py:46-55 | when every slot is decided by one point, the corners do not depend on the order of the vertices |
| Geometry.CornersOfDiamond | utils.py:46-55 | for a square turned by 45 degrees, the top-left and top-right slots get the same vertex |
| Geometry.CornersOfDiamondFromSecond | utils.py:46-55 | the same square listed from its second vertex gets other corners |
| Geometry.TiedCornersDependOnOrder | utils.py:46-55 | with tied keys, two listings of the same four vertices give different corners |
| Geometry.Quadrilaterals | utils.py:59-66 | a contour is kept if and only if it is an input with area above 50 and a 4-vertex approximation; every kept contour is such a quadrilateral |
| Geometry.QuadrilateralsMultiplicity | utils.py:59-66 | each quadrilateral is kept exactly as often as it occurs in the input, every other contour never |
| Geometry.QuadrilateralsConcat | utils.py:59-66 | filtering `s + t` keeps the quadrilaterals of `s` followed by those of `t`, so input order is kept |
| Geometry.QuadrilateralsSnoc | utils.py:59-66 | one more contour at the end is appended exactly when it is a quadrilateral |
| Geometry.QuadrilateralsOfArea | utils.py:59-67 | within any one area the kept contours are the quadrilaterals of that area in input order |
| Geometry.InsertByArea | utils.py:67 | one insertion step of the sort keeps the contours (as a multiset) and adds `c` |
| Geometry.SortByArea | utils.py:67 | `sorted(..., key=contourArea, reverse=True)` is a permutation of its input, ordered by decreasing area |
| Geometry.InsertKeepsSorted | utils.py:67 | the insertion step keeps the order descending |
| Geometry.InsertKeepsBound | utils.py:67 | the insertion step keeps an upper bound on the areas |
| Geometry.SortedCons | utils.py:67 | a head no smaller than the rest extends a descending order |
| Geometry.SortedTail | utils.py:67 | the tail of a descending sequence is descending |
| Geometry.WithAreaConcat | utils.py:67 | the contours of one area in `s + t` are those of `s` followed by those of `t` |
| Geometry.WithAreaOfSmaller | utils.py:67 | contours all smaller than `a` have none of area `a` |
| Geometry.WithAreaCons | utils.py:67 | the contours of one area in a sequence headed by `x` |
| Geometry.InsertGoesBehind | utils.py:67 | a contour no larger than the head is inserted behind it |
| Geometry.InsertKeepsEqualAreaOrder | utils.py:67 | an inserted contour goes after every contour of its own area |
| Geometry.InsertBehind | utils.py:67 | the order of equal areas behind the head carries over to the whole sequence |
| Geometry.InsertInFront | utils.py:67 | a contour larger than all goes in front and is the only one of its area |
| Geometry.SortByAreaIsStable | utils.py:67 | the sort is stable: the contours of each area keep their input order |
| Geometry.RectContour | utils.py:58-68 | the result is the stable sort by decreasing area of the quadrilaterals: it holds each input quadrilateral as often as the input does and nothing else, is sorted by decreasing area, and within each area lists the input's quadrilaterals of that area in input order |
| Grid.RowMajor | video_processing.py:41 | box `r * n + c` sits in row `i // n`, column `i % n` |
| Grid.Block | utils.py:80-85 | a `bh x bw` block holds the image's pixels at its offset |
| Grid.Partition | utils.py:77-86 | `splitBoxes` fails exactly when the height or width does not divide (ValueError), or a count is 0; otherwise it gives `questions * choices` boxes |
| Grid.Cells | utils.py:80-86 | the first `n` boxes in row-major order |
| Grid.CellsSnoc | utils.py:84-85 | one more box appends the next cell |
| Grid.CellAt | utils.py:80-85 | the box at row `r`, column `c` is the block at pixel offset `(r * bh, c * bw)` |
| Grid.BoxPixels | utils.py:80-85 | each box is an `h/questions x w/choices` block whose pixels are the image's at its offset |
| Grid.PixelInOneBox | utils.py:80-86 | every pixel of the image lies in exactly the box `(y / bh) * choices + x / bw`, at `(y % bh, x % bw)` |
| Grid.SplitBoxes | utils.py:77-86 | the check and the nested loop compute `Partition` |
| Drawing.HLine | utils.py:92-95 | horizontal line `i` runs across the whole width at one height, which lies on the picture for `i <= questions` |
| Drawing.VLine | utils.py:96-99 | vertical line `j` runs down the whole height at one column, which lies on the picture for `j <= choices` |
| Drawing.GridLines | utils.py:89-99 | `drawGrid` draws `questions + choices + 2` lines, all within the picture |
| Drawing.DrawGrid | utils.py:89-100 | draws on the canvas in place, appending the grid lines, and returns the same canvas |
| Drawing.GridShape | utils.py:92-99 | `questions + 1` full-width horizontal lines, then `choices + 1` full-height vertical lines, in colour (255, 255, 0), 2 pixels thick |
| Drawing.GridFramesPicture | utils.py:92-99 | the outermost grid lines lie on the picture's edges |
| Drawing.GridOnCellBoundaries | utils.py:90-99 | on an evenly divisible picture every grid line lies on a box boundary of `splitBoxes` |
| Drawing.GridLinesOrdered | utils.py:92-95 | the horizontal lines go down the picture in order |
| Drawing.GridHasNoRed | utils.py:95-99 | the grid is never red |
| Drawing.RowMarksShape | utils.py:106-120 | a question gets one filled circle when graded 1 and two otherwise; the first sits on the chosen cell with radius 30 and is green exactly when graded 1; the second is a green radius-20 circle on the right cell |
| Drawing.WrongCount | utils.py:110-120 | at most `n` questions among the first `n` are wrong |
| Drawing.WrongCountExtremes | utils.py:110-120 | none is wrong exactly when all are graded 1, and all are wrong exactly when none is |
| Drawing.AnswerMarks | utils.py:106-120 | one mark per question plus one per wrongly answered question |
| Drawing.ShowAnswers | utils.py:103-120 | the loop appends exactly the marks of every question to the canvas |
| Drawing.QuestionMarks | utils.py:106-120 | question `x`'s radius-30 circle is on the chosen cell, green exactly when graded 1; a wrong answer is followed by a green radius-20 circle on the right cell |
| Drawing.CentreInCell | utils.py:108-109 | a mark's centre lies inside its cell |
| Drawing.RedMarksAreWrongAnswers | utils.py:110-120 | the red marks are exactly the wrong answers |
| Drawing.RowRedCount | utils.py:110-115 | a question's marks hold one red circle when it is wrong and none otherwise |
| Drawing.RedCountConcat | utils.py:110-120 | red marks count additively over concatenation |
| Drawing.NoRedCount | utils.py:110-120 | marks without red count zero red |
| Drawing.AnswerMarksUseFirstKeys | utils.py:119-120 | `showAnswers` reads only the first `questions` key entries |
| VideoProcessing.WorkingSizeFits | video_processing.py:7-8 | `n * (size // n)` is a multiple of `n`, at most `size`, less than `n` below it, and 0 exactly when `size < n` |
| VideoProcessing.Threshold | video_processing.py:35 | `THRESH_BINARY_INV` keeps the picture's size |
| VideoProcessing.ThresholdMarksDark | video_processing.py:35 | a pixel is foreground (255) exactly when its grey value is at most 170, and background (0) otherwise |
| VideoProcessing.RowNonZeroBounds | video_processing.py:40 | a row's non-zero count is at most its length, and 0 exactly when the row is blank |
| VideoProcessing.CountNonZeroBounds | video_processing.py:40 | `countNonZero` of a box is at most its area, and 0 exactly when the box is blank |
| VideoProcessing.FillGrid | video_processing.py:38-41 | `myPixelVal` has `questions` rows of `choices` counts |
| VideoProcessing.FillCellOfBox | video_processing.py:38-41 | cell `[i // choices][i % choices]` holds box `i`'s count |
| VideoProcessing.FillPixelCounts | video_processing.py:38-41 | the loop over the boxes fills the zeroed 2-D array with exactly the fill grid |
| VideoProcessing.RowsOfFill | video_processing.py:38-43 | the filled array's rows are the fill grid |
| VideoProcessing.Selections | video_processing.py:43 | each row's selection is the first index of its fullest box |
| VideoProcessing.BlankSheetSelectsFirst | video_processing.py:43 | a blank sheet selects choice 0 in every row |
| VideoProcessing.Grading | video_processing.py:46 | entry `i` is 1 exactly when the key agrees with the selection, else 0 |
| VideoProcessing.GradingSum | video_processing.py:46-47 | `sum(grading)` lies in `[0, n]`; it is `n` exactly when every selection matches; right plus wrong is `n` |
| VideoProcessing.Score | video_processing.py:47 | the score times the number of questions is 100 times the number of right answers |
| VideoProcessing.ScoreBounds | video_processing.py:47 | the score lies between 0 and 100, and is 100 exactly when all are right |
| VideoProcessing.ReorderMatchesTarget | video_processing.py:27-31 | `reorder` of the warp's target rectangle is the target itself, so each corner is paired with its target |
| VideoProcessing.GradeBoxes | video_processing.py:38-55 | once the sheet is cut and the key is long enough, the frame is graded |
| VideoProcessing.FrameSpec | video_processing.py:5-62 | ZeroDivisionError is raised exactly for a zero grid size; a frame that does not raise had positive counts and a non-empty picture; the fallback is the resized frame, not the caller's; a graded frame had a key of at least `questions` entries |
| VideoProcessing.Analyse | video_processing.py:16-62 | nothing raised inside the `try` block escapes it; the fallback returns the working frame; a graded frame had a quadrilateral contour and a long enough key |
| VideoProcessing.ProcessVideoFrame | video_processing.py:5-62 | the method computes `FrameSpec`, the function of its inputs |
| VideoProcessing.AnalyseFrame | video_processing.py:16-62 | the `try` block computes `Analyse` |
| VideoProcessing.GradeFrame | video_processing.py:37-55 | fill grid, selection, grading, score and overlay compute `GradeBoxes` |
| VideoProcessing.DrawOverlay | video_processing.py:50-51 | `showAnswers`, then `drawGrid`, on the straightened sheet give `Overlay` |
| VideoProcessing.GradeBoxesScore | video_processing.py:46-55 | the graded image is the straightened sheet. It reports at most `questions` right answers, and a score in [0, 100]. The score is 100 exactly when all answers are right, and all answers are right exactly when every selection equals the key. |
| VideoProcessing.GradeBoxesRedMarks | video_processing.py:46-51 | the overlay has exactly `questions - correct` red marks |
| VideoProcessing.OverlayRedMarks | video_processing.py:50-51 | the overlay's red marks are the wrong answers |
| VideoProcessing.GradeBoxesUsesFirstKeys | video_processing.py:46-50 | the result depends on the first `questions` key entries only |
| VideoProcessing.RaisedBeforeTry | video_processing.py:7-9 | an exception escapes exactly for a zero grid size, an empty frame, or `image_size` below either count. It is ZeroDivisionError exactly for a zero grid size. |
| VideoProcessing.GradedFrame | video_processing.py:20-55 | a graded frame had positive counts, a quadrilateral contour and a key of at least `questions` entries. It has the bounds of `GradeBoxesScore` and the red marks of `GradeBoxesRedMarks`. |
| VideoProcessing.ExtraKeysIgnored | video_processing.py:46 | key entries beyond `questions` change nothing |
| VideoProcessing.SheetDivides | video_processing.py:30-37 | with size-keeping OpenCV steps the thresholded sheet is the working size, which the grid divides |
| VideoProcessing.BlankPicture | video_processing.py:11 | a blank picture has the requested height, and the requested width when it has rows |
| VideoProcessing.SizeKeepingVisionExists | video_processing.py:9-35 | OpenCV steps that keep picture sizes exist, so the size-keeping assumption can be met |
| VideoProcessing.AnalyseOfDividedSheet | video_processing.py:20-55 | once the biggest quadrilateral's sheet divides into the grid, the frame is graded exactly when the key is long enough, and otherwise falls back to the working frame |
| VideoProcessing.GradedIffSheetFound | video_processing.py:16-62 | the warp and the grey conversion keep picture sizes, and the frame passes the resize. Then it is graded exactly when a quadrilateral contour exists and the key is long enough; otherwise it is the working frame with 0, 0. |
| OmrGui.ReadCount | omr_gui.py:176-182 | a count read from an entry is positive |
| OmrGui.ReadCountOfPositive | omr_gui.py:176-179 | an entry holding `str(n)` for positive `n` reads as `n` |
| OmrGui.ReadCountRejects | omr_gui.py:176-182 | a non-positive integer gets the positivity message; text `int()` cannot read gets `int()`'s message |
| OmrGui.Unchecked | omr_gui.py:263-272 | `questions` rows of `choices` unchecked boxes |
| OmrGui.CheckedColumns | omr_gui.py:224 | `selected` holds exactly the checked columns, increasing |
| OmrGui.OneCheckedIff | omr_gui.py:224-228 | a row passes exactly when its checked box `j` is the only one, and then `j` is the answer |
| OmrGui.OnlyCheckedColumn | omr_gui.py:224-225 | a sole checked box is the sole selected column |
| OmrGui.NoneCheckedFails | omr_gui.py:224-228 | a row with no checked box fails |
| OmrGui.FirstFailingRow | omr_gui.py:223-228 | the first row without exactly one checked box, or the number of rows when there is none |
| OmrGui.AnswersOf | omr_gui.py:222-226 | the answers of the first `n` passing rows, one per row |
| OmrGui.AnswersAreCheckedColumns | omr_gui.py:224-226 | each answer taken is the only checked column of its row, inside the row |
| OmrGui.FreshGridFailsAtFirstQuestion | omr_gui.py:220-228 | with a freshly built grid, reading the key fails at question 1 |
| OmrGui.AnswersOfStep | omr_gui.py:224-226 | one more passing row appends its checked column to the key |
| OmrGui.FirstFailingIs | omr_gui.py:223-228 | the loop stops at row `i` exactly when `i` is the first failing row |
| OmrGui.NextWorkNumber | omr_gui.py:157-163 | the next work number is at least 1: the count of "Работа" plus one, or 1 without a report |
| OmrGui.Record | omr_gui.py:150-165 | a record starts with "Работа" and ends with the `%` of its percentage line and a blank line |
| OmrGui.MarkerIsBorderless | omr_gui.py:163 | no two occurrences of "Работа" can overlap |
| OmrGui.NoMarkerInNumbers | omr_gui.py:150-165 | numbers written with `str` contain no "Р" |
| OmrGui.NoMarkerInLabels | omr_gui.py:150-155 | the record's labels contain no "Р" |
| OmrGui.NoMarkerInBody | omr_gui.py:150-165 | a record after its heading word contains no "Р" |
| OmrGui.RecordHoldsOneMarker | omr_gui.py:150-165 | a record starts with "Работа" and holds it exactly once |
| OmrGui.SaveAdvancesWorkNumber | omr_gui.py:157-168 | after appending record `n` the next work number is `n + 1`, so saves are numbered 1, 2, 3, … |
| OmrGui.LoadReportCall | report_screen.py:65 | `load_report` takes no argument besides `self`: a call fails with TypeError exactly when it passes arguments |
| OmrGui.ScreenAsWritten | omr_gui.py:202-218 | once `process_video_frame` has returned, whatever the record, the screen keeps its text and the failure of the `load_report` call is shown; the success message never appears |
| OmrGui.ScreenCorrected | omr_gui.py:202-216 | with `load_report` showing the text it is given, the screen gains the record numbered by the "Работа" already shown, and the success message names that number |
| OmrGui.ScreenAdvancesWorkNumber | omr_gui.py:204-214 | with the correction, each addition to the screen advances the next work number by one |
| OmrGui.ShortKeyNeverGrades | video_processing.py:46 | a key shorter than `questions` never grades a frame |
| OmrGui.OmrApp.constructor | omr_gui.py:13-17 | the defaults: 5 questions, 5 choices, key `[1, 2, 0, 2, 4]`, image size 700, an unchecked 5x5 grid, no paused frame |
| OmrGui.OmrApp.CreateCheckboxes | omr_gui.py:258-272 | the grid becomes `questions x choices` unchecked boxes; nothing else changes |
| OmrGui.OmrApp.SetChecked | omr_gui.py:268-271 | a click sets one checkbox and changes nothing else |
| OmrGui.OmrApp.CommitChoices | omr_gui.py:183-184 | the number of choices is committed and the grid rebuilt as `questions x choices` unchecked boxes; nothing else changes |
| OmrGui.OmrApp.ApplySettings | omr_gui.py:174-186 | a bad number of questions changes nothing; a bad number of choices commits the new number of questions but keeps the old choices and grid; with both good the grid is rebuilt; each error shows its message, and the key is never touched |
| OmrGui.OmrApp.UpdateCorrectAnswers | omr_gui.py:220-233 | the key becomes the answers of the rows before the first failing row. The message names that row (counted from 1), or is the success message. |
| OmrGui.OmrApp.SaveReport | omr_gui.py:134-172 | without a paused frame, a warning and nothing else changes; an exception from `process_video_frame` leaves the report unchanged and shows the failure; otherwise the record numbered `NextWorkNumber(report)` is appended to the report and the message names that number |
| OmrGui.OmrApp.AddReportToScreen | omr_gui.py:188-218 | as written: without a paused frame, a warning; an exception from `process_video_frame` is shown as a failure; otherwise the outcome is `ScreenAsWritten`, so the screen text never changes |
| OmrGui.OmrApp.AddReportToScreenCorrected | omr_gui.py:188-218 | the evidently intended version: the same warnings and failures, and otherwise the outcome is `ScreenCorrected`, the record appended to the screen |
| ReportScreen.ParsePercentage | report_screen.py:139-145 | a criterion never reads as negative: the cut at the first `-` removes any minus sign, and unreadable text reads as 0 |
| ReportScreen.ParseRangeStart | report_screen.py:139-145 | a criterion `"n-…"` reads as `n` |
| ReportScreen.ParseBareNumber | report_screen.py:139-145 | a criterion `"n%"` reads as `n` |
| ReportScreen.StripBareNumber | report_screen.py:142 | `strip()` leaves `"n%"` alone |
| ReportScreen.RemoveAllConcat | report_screen.py:142 | `replace` distributes over concatenation |
| ReportScreen.ParseNonNumber | report_screen.py:141-145 | text that `float()` refuses reads as 0 |
| ReportScreen.DefaultThresholds | report_screen.py:44-47 | the default criteria read as 90, 75, 50 and 0 |
| ReportScreen.DefaultFive | report_screen.py:44 | "90-100%" reads as 90 |
| ReportScreen.DefaultFour | report_screen.py:45 | "75-89%" reads as 75 |
| ReportScreen.DefaultThree | report_screen.py:46 | "50-74%" reads as 50 |
| ReportScreen.LessThanFiftyIsNotANumber | report_screen.py:47 | "менее 50%" reads as 0 |
| ReportScreen.WordIsNotANumber | report_screen.py:139-145 | a criterion without `-` that starts with a letter reads as 0 |
| ReportScreen.StripKeepsFirst | report_screen.py:142 | `strip()` keeps a first character that is not whitespace |
| ReportScreen.RemoveAllKeepsFirst | report_screen.py:142 | `replace` keeps a first character it does not remove |
| ReportScreen.NotANumber | report_screen.py:142-145 | text starting with no sign, digit, point or whitespace is refused by `float()` |
| ReportScreen.GradeWork | report_screen.py:126-137 | the grade is one of "1" to "5" |
| ReportScreen.Cascade | report_screen.py:128-137 | the if/elif cascade gives one of "1" to "5" |
| ReportScreen.GradeCascade | report_screen.py:126-137 | each grade is given exactly when the percentage reaches its criterion and none of the earlier ones |
| ReportScreen.GradeIsMonotone | report_screen.py:126-137 | for fixed criteria a higher percentage never gets a lower grade |
| ReportScreen.CascadeIsMonotone | report_screen.py:128-137 | the cascade is monotone in the percentage |
| ReportScreen.DefaultGrades | report_screen.py:44-47 | with the default criteria, the bands are [90, ∞) for "5", [75, 90) for "4", [50, 75) for "3" and [0, 50) for "2"; a non-negative percentage never gets "1" |
| ReportScreen.DefaultIsCascade | report_screen.py:44-47 | the default grading is the cascade on 90, 75, 50, 0 |
| ReportScreen.Percentage | report_screen.py:117 | division by zero exactly for a work without questions; otherwise `value * total == correct * 100` |
| ReportScreen.PercentageBounds | report_screen.py:117 | a valid work's percentage lies between 0 and 100, and is 100 exactly when all are right |
| ReportScreen.PercentageIsScore | report_screen.py:117 | the recomputed percentage equals the score of `process_video_frame` |
| ReportScreen.WorkGrade | report_screen.py:101-118 | a work without questions gives "Ошибка: division by zero" in place of the report; otherwise a grade |
| ReportScreen.DefaultWorkGrades | report_screen.py:117-118 | with the default criteria every recorded work grades at least "2", and a perfect work "5" |

## Left out

- OpenCV is not modelled.
  - `resize`, the contour search (grey, blur, Canny, `findContours`, `contourArea`, `approxPolyDP`), `getPerspectiveTransform` with `warpPerspective`, and `cvtColor` are the fields of `Vision`: arbitrary total functions.
  - Their exceptions inside the `try` block would give the fallback and are not modelled separately.
  - `cv2.drawContours` and `np.zeros` pictures (video_processing.py:11,19,28,52-53) only touch pictures that are discarded.
- `getCornerPoints` (utils.py:71-74) repeats the `approxPolyDP` call of `rectContour`. It is the `approx` field of a `Contour`.
- Floating point is not modelled. The score and the percentage are exact reals, and the grid line positions `int(h / questions * i)` are the exact floor `(h * i) / questions`.
- VideoProcessing.FrameSpec: the `ResizeFailed` fault stands for `cv2.resize` raising on an empty frame or an empty target size.
- The grid size and the image size are `nat`; the application never passes negative values there.
- Drawing.DrawGrid: requires positive counts, where the source would raise ZeroDivisionError. It is only called after `process_video_frame` has divided by both counts.
- Drawing.ShowAnswers: requires positive counts and a key entry for every wrong answer. Both hold at its only call, after the grading.
- VideoProcessing.FillPixelCounts: requires positive counts and `questions * choices` boxes, which `splitBoxes` guarantees at the call.
- OmrGui.OmrApp.ApplySettings: requires `Valid()` (positive counts, rows as long as `choices`). The constructor establishes it and every method keeps it.
- Text.ParseInt: `int()` is modelled on ASCII digits with an optional sign and surrounding whitespace. Underscores, non-ASCII digits and other bases are not modelled.
- Text.ParseDecimal: `float()` is modelled on plain decimal numerals. Exponents, `inf`, `nan`, underscores and non-ASCII digits are not modelled.
- OmrGui.IntError: it approximates the text of `int()`'s ValueError. Python writes the text with `repr`, which escapes quotes and special characters.
- OmrGui.OmrApp.SaveReport: the failure message carries the `Fault` rather than the exception text OpenCV would produce. Exceptions from file I/O are not modelled.
- OmrGui.OmrApp.AddReportToScreen: the screen text is a parameter, and the text left on the screen is returned instead of being held by the report widget. The TypeError's message is the `LoadReportArity` error rather than Python's text.
- The grey conversion, blur and edge detection (video_processing.py:12-14) run before the `try` block. They are part of the `contours` field of `Vision`, a total function, so the model assumes they do not raise. That holds for 3-channel frames such as the camera delivers.
- The Qt user interface is not modelled: widgets, styles, message boxes as real dialogs, the camera loop and the QTimer.
  - Pause toggling is out too, so no model method sets `pausedFrame`. `SaveReport` and `AddReportToScreen` are specified for either state of the field.
  - `analyze_paused_frame`, and the display in `update_correct_answers`, only shows a result.
  - `video_controls.py`, `main_window.py`, `template_download.py` and `main.py` are not part of this model.
- File access is not modelled. `report.txt` is the `reportFile` field (None when the file does not exist), and reading and appending are operations on that string.
- The `:.2f` formatting of the score is the parameter `fmt`.
- `generate_report` is not modelled: its regular expression over the report and its loop over the works. `Percentage`, `GradeWork` and `WorkGrade` model what that loop computes for one work.
- The charts (`generate_chart`, `generate_grade_chart`) and `stackImages` (utils.py:7-43) only display results.

## Findings

| source | as written | input that shows it | evidently intended | confidence | as-written member | corrected member |
|---|---|---|---|---|---|---|
| omr_gui.py:215 | `add_report_to_screen` calls `load_report(updated_content)`, but `load_report` (report_screen.py:65) takes no argument, so the call raises TypeError, the updated text is never shown and the "added as 'Работа N'" message never appears | any paused frame for which `process_video_frame` returns, for example a frame whose sheet is not found | the report screen shows the old text followed by the new record, and the success message names the work number | not executed | OmrGui.ScreenAsWritten | OmrGui.ScreenCorrected |
