/** utils.splitBoxes: cutting the thresholded sheet into a questions x choices grid of cells,
    listed row by row. */
module Grid {
  import opened Images
  import opened Results
  import opened Arith

  /** ZeroDivision is Python's ZeroDivisionError from `% 0`; NotDivisible is the ValueError
      splitBoxes raises itself. */
  datatype SplitError = ZeroDivision | NotDivisible

  /** Pixel offset of the k-th band of width size. */
  function Offset(k: nat, size: nat): nat
  {
    MulNonneg(k, size);
    k * size
  }

  /** Position of the box at block-row row, block-column col in the row-major list. */
  function BoxIndex(row: nat, col: nat, choices: nat): nat
  {
    MulNonneg(row, choices);
    row * choices + col
  }

  /** Index i of a row-major grid with n columns sits in row i / n and column i % n, and back. */
  lemma RowMajor(r: nat, c: nat, n: nat)
    requires c < n
    ensures (r * n + c) / n == r && (r * n + c) % n == c
  {
    DivModUnique(r * n + c, n, r, c);
  }

  /** Cell i of a rows x n grid lies inside the grid, and its block inside an image of
      rows * bh by n * bw pixels. */
  lemma CellFits(i: nat, rows: nat, n: nat, bh: nat, bw: nat)
    requires n > 0 && i < rows * n
    ensures i / n < rows && i % n < n
    ensures (i / n) * bh + bh <= rows * bh && (i % n) * bw + bw <= n * bw
    ensures (i / n) * bh >= 0 && (i % n) * bw >= 0
  {
    var r, c := i / n, i % n;
    MulNonneg(r, bh);
    MulNonneg(c, bw);
    assert i == r * n + c;
    if r >= rows {
      MulMonotone(rows, r, n);
      assert false;
    }
    MulMonotone(r + 1, rows, bh);
    assert (r + 1) * bh == r * bh + bh;
    MulMonotone(c + 1, n, bw);
    assert (c + 1) * bw == c * bw + bw;
  }

  /** An evenly divisible length is the number of parts times the part length. */
  lemma ExactParts(len: nat, parts: nat)
    requires parts > 0 && len % parts == 0
    ensures parts * (len / parts) == len
  {
  }

  /** The bh x bw block whose top-left pixel is (top, left). */
  function Block(img: Image, top: nat, left: nat, bh: nat, bw: nat): (b: Image)
    requires top + bh <= Height(img) && left + bw <= Width(img)
    ensures Height(b) == bh && (bh > 0 ==> Width(b) == bw)
    ensures forall y, x :: 0 <= y < bh && 0 <= x < bw ==> b[y][x] == img[top + y][left + x]
  {
    seq(bh, k requires 0 <= k < bh => img[top + k][left .. left + bw])
  }

  /** What splitBoxes returns: np.vsplit into `questions` bands, each np.hsplit into `choices`
      cells, appended band by band. */
  function Partition(img: Image, questions: nat, choices: nat): (r: Result<seq<Image>, SplitError>)
    ensures r.Err? <==> questions == 0 || choices == 0 || Height(img) % questions != 0 || Width(img) % choices != 0
    ensures questions > 0 && choices > 0 && r.Err? ==> r.error == NotDivisible
    ensures r.Ok? ==> |r.value| == questions * choices
  {
    if questions == 0 then Err(ZeroDivision)
    else if Height(img) % questions != 0 then Err(NotDivisible)
    else if choices == 0 then Err(ZeroDivision)
    else if Width(img) % choices != 0 then Err(NotDivisible)
    else
      Ok(Cells(img, questions, choices, questions * choices))
  }

  /** The first n cells, in row-major order. */
  function Cells(img: Image, questions: nat, choices: nat, n: nat): (cells: seq<Image>)
    requires questions > 0 && choices > 0
    requires Height(img) % questions == 0 && Width(img) % choices == 0
    requires n <= questions * choices
    ensures |cells| == n
  {
    seq(n, i requires 0 <= i < n => CellOf(img, questions, choices, i))
  }

  lemma CellsSnoc(img: Image, questions: nat, choices: nat, n: nat)
    requires questions > 0 && choices > 0
    requires Height(img) % questions == 0 && Width(img) % choices == 0
    requires n < questions * choices
    ensures Cells(img, questions, choices, n + 1)
            == Cells(img, questions, choices, n) + [CellOf(img, questions, choices, n)]
  {
  }

  /** Cell i of the grid of an evenly divisible image: block-row i / choices,
      block-column i % choices. */
  function CellOf(img: Image, questions: nat, choices: nat, i: nat): Image
    requires questions > 0 && choices > 0
    requires Height(img) % questions == 0 && Width(img) % choices == 0
    requires i < questions * choices
  {
    var bh, bw := Height(img) / questions, Width(img) / choices;
    CellFits(i, questions, choices, bh, bw);
    ExactParts(Height(img), questions);
    ExactParts(Width(img), choices);
    Block(img, Offset(i / choices, bh), Offset(i % choices, bw), bh, bw)
  }

  /** The cell at block-row row, block-column col is the block at pixel offsets
      (row * bh, col * bw). */
  lemma CellAt(img: Image, questions: nat, choices: nat, row: nat, col: nat)
    requires questions > 0 && choices > 0
    requires Height(img) % questions == 0 && Width(img) % choices == 0
    requires row < questions && col < choices
    ensures var bh, bw := Height(img) / questions, Width(img) / choices;
            && BoxIndex(row, col, choices) < questions * choices
            && Offset(row, bh) + bh <= Height(img) && Offset(col, bw) + bw <= Width(img)
            && CellOf(img, questions, choices, BoxIndex(row, col, choices))
               == Block(img, Offset(row, bh), Offset(col, bw), bh, bw)
  {
    var bh, bw := Height(img) / questions, Width(img) / choices;
    RowMajor(row, col, choices);
    MulMonotone(row + 1, questions, choices);
    CellFits(BoxIndex(row, col, choices), questions, choices, bh, bw);
    ExactParts(Height(img), questions);
    ExactParts(Width(img), choices);
  }

  /** Each box is an (h / questions) x (w / choices) block; box i is taken from block-row
      i / choices and block-column i % choices. */
  lemma BoxPixels(img: Image, questions: nat, choices: nat, i: nat, y: nat, x: nat)
    requires Partition(img, questions, choices).Ok?
    requires i < questions * choices
    requires y < Height(img) / questions && x < Width(img) / choices
    ensures var boxes := Partition(img, questions, choices).value;
            var bh, bw := Height(img) / questions, Width(img) / choices;
            && Offset(i / choices, bh) + y < Height(img) && Offset(i % choices, bw) + x < Width(img)
            && Height(boxes[i]) == bh && Width(boxes[i]) == bw
            && boxes[i][y][x] == img[Offset(i / choices, bh) + y][Offset(i % choices, bw) + x]
  {
    var boxes := Partition(img, questions, choices).value;
    var bh, bw := Height(img) / questions, Width(img) / choices;
    CellFits(i, questions, choices, bh, bw);
    ExactParts(Height(img), questions);
    ExactParts(Width(img), choices);
    var top, left := Offset(i / choices, bh), Offset(i % choices, bw);
    var cell := Block(img, top, left, bh, bw);
    assert cell == CellOf(img, questions, choices, i);
    assert boxes[i] == cell;
    assert cell[y][x] == img[top + y][left + x];
  }

  /** Together the boxes cover the image exactly once: pixel (y, x) is pixel (y % bh, x % bw)
      of box (y / bh) * choices + x / bw. */
  lemma PixelInOneBox(img: Image, questions: nat, choices: nat, y: nat, x: nat)
    requires Partition(img, questions, choices).Ok?
    requires y < Height(img) && x < Width(img)
    ensures var boxes := Partition(img, questions, choices).value;
            var bh, bw := Height(img) / questions, Width(img) / choices;
            && bh > 0 && bw > 0
            && BoxIndex(y / bh, x / bw, choices) < |boxes|
            && Height(boxes[BoxIndex(y / bh, x / bw, choices)]) == bh
            && Width(boxes[BoxIndex(y / bh, x / bw, choices)]) == bw
            && boxes[BoxIndex(y / bh, x / bw, choices)][y % bh][x % bw] == img[y][x]
  {
    var h, w := Height(img), Width(img);
    var bh, bw := h / questions, w / choices;
    ExactParts(h, questions);
    ExactParts(w, choices);
    PositivePart(h, questions);
    PositivePart(w, choices);
    var r, c := y / bh, x / bw;
    BandOf(y, bh, questions);
    BandOf(x, bw, choices);
    CellAt(img, questions, choices, r, c);
    RowMajor(r, c, choices);
    BoxPixels(img, questions, choices, BoxIndex(r, c, choices), y % bh, x % bw);
  }

  /** Coordinate v of a length made of parts bands of width size lies in band v / size. */
  lemma BandOf(v: nat, size: nat, parts: nat)
    requires size > 0 && v < parts * size
    ensures v / size < parts && v == Offset(v / size, size) + v % size
  {
    var k := v / size;
    assert v == k * size + v % size;
    if k >= parts {
      MulMonotone(parts, k, size);
      assert false;
    }
  }

  lemma PositivePart(len: nat, parts: nat)
    requires parts > 0 && len % parts == 0 && len > 0
    ensures len / parts > 0
  {
  }

  /** splitBoxes: the divisibility check, then a nested loop appending the cells row by row. */
  method SplitBoxes(img: Image, questions: nat, choices: nat) returns (res: Result<seq<Image>, SplitError>)
    ensures res == Partition(img, questions, choices)
  {
    if questions == 0 {
      return Err(ZeroDivision);
    }
    if Height(img) % questions != 0 {
      return Err(NotDivisible);
    }
    if choices == 0 {
      return Err(ZeroDivision);
    }
    if Width(img) % choices != 0 {
      return Err(NotDivisible);
    }
    var bh, bw := Height(img) / questions, Width(img) / choices;
    var boxes: seq<Image> := [];
    var r := 0;
    while r < questions
      invariant r <= questions
      invariant BoxIndex(r, 0, choices) <= questions * choices
      invariant boxes == Cells(img, questions, choices, BoxIndex(r, 0, choices))
    {
      var c := 0;
      while c < choices
        invariant c <= choices
        invariant BoxIndex(r, c, choices) <= questions * choices
        invariant boxes == Cells(img, questions, choices, BoxIndex(r, c, choices))
      {
        CellAt(img, questions, choices, r, c);
        CellsSnoc(img, questions, choices, BoxIndex(r, c, choices));
        var cell := Block(img, Offset(r, bh), Offset(c, bw), bh, bw);
        boxes := boxes + [cell];
        c := c + 1;
      }
      MulMonotone(r + 1, questions, choices);
      assert BoxIndex(r, choices, choices) == BoxIndex(r + 1, 0, choices);
      r := r + 1;
    }
    return Ok(boxes);
  }
}
