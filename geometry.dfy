/** Sheet location helpers of utils.py: ordering the four corners of the sheet (reorder) and
    keeping the quadrilateral contours, largest first (rectContour). */
module Geometry {
  import opened Images
  import opened ArgExtrema

  // ---------------------------------------------------------------- reorder

  /** The two keys reorder ranks corners by: myPoints.sum(1) is x + y, smallest at the top-left
      and largest at the bottom-right; np.diff(myPoints, axis=1) is y - x, smallest at the
      top-right and largest at the bottom-left. */
  datatype Key = SumKey | DiffKey

  function KeyOf(key: Key, p: Point): int {
    match key
    case SumKey => p.x + p.y
    case DiffKey => p.y - p.x
  }

  function Keys(points: seq<Point>, key: Key): (ks: seq<int>)
    ensures |ks| == |points| && forall i :: 0 <= i < |points| ==> ks[i] == KeyOf(key, points[i])
  {
    seq(|points|, i requires 0 <= i < |points| => KeyOf(key, points[i]))
  }

  /** p is one of the points and no point has a smaller (least) or larger (!least) key. */
  predicate IsExtremeIn(p: Point, points: seq<Point>, key: Key, least: bool) {
    && p in points
    && forall q :: q in points ==> if least then KeyOf(key, p) <= KeyOf(key, q) else KeyOf(key, q) <= KeyOf(key, p)
  }

  /** np.argmin (least) or np.argmax (!least) of the keys of the points. */
  function ArgExtreme(points: seq<Point>, key: Key, least: bool): (k: nat)
    requires |points| > 0
    ensures k < |points|
  {
    var ks := Keys(points, key);
    if least then FirstArgMin(ks) else FirstArgMax(ks)
  }

  /** The point that np.argmin (least) or np.argmax (!least) of the keys selects. */
  function Extreme(points: seq<Point>, key: Key, least: bool): (p: Point)
    requires |points| > 0
    ensures IsExtremeIn(p, points, key, least)
  {
    var ks := Keys(points, key);
    assert ArgExtreme(points, key, least) == if least then FirstArgMin(ks) else FirstArgMax(ks);
    assert forall q :: q in points ==> exists j :: 0 <= j < |points| && points[j] == q && ks[j] == KeyOf(key, q);
    points[ArgExtreme(points, key, least)]
  }

  /** The corners in the order reorder writes them and the perspective target expects them:
      top-left (least x + y), top-right (least y - x), bottom-left (largest y - x),
      bottom-right (largest x + y).  Every output point is one of the inputs. */
  function Corners(points: seq<Point>): (c: seq<Point>)
    requires |points| == 4
    ensures |c| == 4 && forall k :: 0 <= k < 4 ==> c[k] in points
    ensures forall p :: p in points ==> KeyOf(SumKey, c[0]) <= KeyOf(SumKey, p) <= KeyOf(SumKey, c[3])
    ensures forall p :: p in points ==> KeyOf(DiffKey, c[1]) <= KeyOf(DiffKey, p) <= KeyOf(DiffKey, c[2])
  {
    assert IsExtremeIn(Extreme(points, SumKey, true), points, SumKey, true);
    assert IsExtremeIn(Extreme(points, SumKey, false), points, SumKey, false);
    assert IsExtremeIn(Extreme(points, DiffKey, true), points, DiffKey, true);
    assert IsExtremeIn(Extreme(points, DiffKey, false), points, DiffKey, false);
    [Extreme(points, SumKey, true), Extreme(points, DiffKey, true),
     Extreme(points, DiffKey, false), Extreme(points, SumKey, false)]
  }

  /** reorder: fills a fresh 4-slot array, slot by slot, with the corners in canonical order. */
  method Reorder(points: seq<Point>) returns (ordered: array<Point>)
    requires |points| == 4
    ensures fresh(ordered) && ordered[..] == Corners(points)
  {
    ordered := new Point[4](_ => Point(0, 0));
    ordered[0] := points[ArgExtreme(points, SumKey, true)];
    ordered[3] := points[ArgExtreme(points, SumKey, false)];
    ordered[1] := points[ArgExtreme(points, DiffKey, true)];
    ordered[2] := points[ArgExtreme(points, DiffKey, false)];
  }

  /** On a tie the first point in input order wins each slot. */
  lemma CornersTakeFirstExtremes(points: seq<Point>, tl: nat, tr: nat, bl: nat, br: nat)
    requires |points| == 4
    requires IsFirstMin(Keys(points, SumKey), tl) && IsFirstMin(Keys(points, DiffKey), tr)
    requires IsFirstMax(Keys(points, DiffKey), bl) && IsFirstMax(Keys(points, SumKey), br)
    ensures Corners(points) == [points[tl], points[tr], points[bl], points[br]]
  {
    FirstMinIsUnique(Keys(points, SumKey), tl);
    FirstMinIsUnique(Keys(points, DiffKey), tr);
    FirstMaxIsUnique(Keys(points, DiffKey), bl);
    FirstMaxIsUnique(Keys(points, SumKey), br);
  }

  /** Only one point value attains the extreme key. */
  ghost predicate UniqueExtreme(points: seq<Point>, key: Key, least: bool) {
    forall p, q :: IsExtremeIn(p, points, key, least) && IsExtremeIn(q, points, key, least) ==> p == q
  }

  /** Each of the four corner slots is decided by a single point. */
  ghost predicate DistinctExtremes(points: seq<Point>) {
    && UniqueExtreme(points, SumKey, true) && UniqueExtreme(points, SumKey, false)
    && UniqueExtreme(points, DiffKey, true) && UniqueExtreme(points, DiffKey, false)
  }

  lemma ExtremeIgnoresOrder(p: seq<Point>, q: seq<Point>, key: Key, least: bool)
    requires |p| > 0 && |q| > 0 && multiset(p) == multiset(q)
    requires UniqueExtreme(p, key, least)
    ensures Extreme(p, key, least) == Extreme(q, key, least)
  {
    assert forall x :: x in p <==> x in q by {
      forall x ensures x in p <==> x in q {
        assert x in p <==> x in multiset(p);
        assert x in q <==> x in multiset(q);
      }
    }
    var a, b := Extreme(p, key, least), Extreme(q, key, least);
    assert IsExtremeIn(a, p, key, least);
    assert IsExtremeIn(b, p, key, least);
  }

  /** When every corner slot is decided by one point, reorder does not depend on the order in
      which the contour approximation lists its vertices. */
  lemma CornersIgnoreInputOrder(p: seq<Point>, q: seq<Point>)
    requires |p| == 4 && |q| == 4 && multiset(p) == multiset(q)
    requires DistinctExtremes(p)
    ensures Corners(p) == Corners(q)
  {
    ExtremeIgnoresOrder(p, q, SumKey, true);
    ExtremeIgnoresOrder(p, q, SumKey, false);
    ExtremeIgnoresOrder(p, q, DiffKey, true);
    ExtremeIgnoresOrder(p, q, DiffKey, false);
  }

  /** The vertices of a square turned by 45 degrees, and the same vertices listed from the second one. */
  const Diamond: seq<Point> := [Point(1, 0), Point(0, 1), Point(2, 1), Point(1, 2)]
  const DiamondFromSecond: seq<Point> := [Point(0, 1), Point(2, 1), Point(1, 2), Point(1, 0)]

  lemma CornersOfDiamond()
    ensures Corners(Diamond) == [Point(1, 0), Point(1, 0), Point(0, 1), Point(2, 1)]
  {
    assert Keys(Diamond, SumKey) == [1, 1, 3, 3];
    assert Keys(Diamond, DiffKey) == [-1, 1, -1, 1];
    CornersTakeFirstExtremes(Diamond, 0, 0, 1, 2);
  }

  lemma CornersOfDiamondFromSecond()
    ensures Corners(DiamondFromSecond) == [Point(0, 1), Point(2, 1), Point(0, 1), Point(2, 1)]
  {
    assert Keys(DiamondFromSecond, SumKey) == [1, 3, 3, 1];
    assert Keys(DiamondFromSecond, DiffKey) == [1, -1, 1, -1];
    CornersTakeFirstExtremes(DiamondFromSecond, 0, 1, 0, 1);
  }

  /** A sheet turned by 45 degrees has tied keys, and then listing the same four vertices from
      another starting vertex changes the corners (and puts one point into two slots). */
  lemma TiedCornersDependOnOrder()
    ensures multiset(Diamond) == multiset(DiamondFromSecond)
    ensures Corners(Diamond) != Corners(DiamondFromSecond)
  {
    assert multiset(DiamondFromSecond) == multiset(Diamond) by {
      assert DiamondFromSecond == Diamond[1..] + Diamond[..1];
      assert Diamond == Diamond[..1] + Diamond[1..];
    }
    assert Corners(Diamond) != Corners(DiamondFromSecond) by {
      CornersOfDiamond();
      CornersOfDiamondFromSecond();
    }
  }

  // ---------------------------------------------------------------- rectContour

  /** An external contour as rectContour sees it: cv2.contourArea, and the cv2.approxPolyDP
      polygon (epsilon 2% of the perimeter), which is also what getCornerPoints returns. */
  datatype Contour = Contour(area: real, approx: seq<Point>)

  /** Kept by rectContour: area above 50 and an approximation with exactly 4 vertices. */
  predicate IsQuadrilateral(c: Contour) {
    c.area > 50.0 && |c.approx| == 4
  }

  /** The contours rectContour appends, in input order. */
  function Quadrilaterals(cs: seq<Contour>): (r: seq<Contour>)
    ensures forall c :: c in r <==> c in cs && IsQuadrilateral(c)
    ensures forall i :: 0 <= i < |r| ==> IsQuadrilateral(r[i])
  {
    if |cs| == 0 then []
    else
      var last := cs[|cs| - 1];
      assert cs == cs[..|cs| - 1] + [last];
      assert forall c :: c in cs <==> c in cs[..|cs| - 1] || c == last;
      Quadrilaterals(cs[..|cs| - 1]) + KeptAlone(last)
  }

  /** What rectContour keeps of a single contour. */
  function KeptAlone(c: Contour): seq<Contour> {
    if IsQuadrilateral(c) then [c] else []
  }

  /** rectContour keeps every quadrilateral as often as the input holds it, and nothing else. */
  lemma {:induction false} QuadrilateralsMultiplicity(cs: seq<Contour>)
    ensures forall c :: multiset(Quadrilaterals(cs))[c] == if IsQuadrilateral(c) then multiset(cs)[c] else 0
  {
    if |cs| > 0 {
      var init, last := cs[..|cs| - 1], cs[|cs| - 1];
      assert cs == init + [last];
      QuadrilateralsMultiplicity(init);
      assert multiset(cs) == multiset(init) + multiset{last};
      assert multiset(Quadrilaterals(cs)) == multiset(Quadrilaterals(init)) + multiset(KeptAlone(last));
    }
  }

  lemma {:induction false} QuadrilateralsConcat(s: seq<Contour>, t: seq<Contour>)
    ensures Quadrilaterals(s + t) == Quadrilaterals(s) + Quadrilaterals(t)
  {
    if |t| == 0 {
      assert s + t == s;
    } else {
      var init, last := t[..|t| - 1], t[|t| - 1];
      assert s + t == (s + init) + [last] && t == init + [last];
      QuadrilateralsSnoc(s + init, last);
      QuadrilateralsSnoc(init, last);
      QuadrilateralsConcat(s, init);
    }
  }

  /** One more contour at the end is kept, or not, on its own. */
  lemma QuadrilateralsSnoc(s: seq<Contour>, last: Contour)
    ensures Quadrilaterals(s + [last]) == Quadrilaterals(s) + KeptAlone(last)
  {
    var t := s + [last];
    assert t[..|t| - 1] == s;
  }

  /** Keeping the quadrilaterals and selecting one area commute: within each area the kept
      contours are those of the input, in input order and with their repetitions. */
  lemma {:induction false} QuadrilateralsOfArea(cs: seq<Contour>, a: real)
    ensures WithArea(Quadrilaterals(cs), a) == Quadrilaterals(WithArea(cs, a))
  {
    if |cs| > 0 {
      var init, last := cs[..|cs| - 1], cs[|cs| - 1];
      assert cs == init + [last];
      QuadrilateralsOfArea(init, a);
      WithAreaConcat(Quadrilaterals(init), KeptAlone(last), a);
      WithAreaConcat(init, [last], a);
      QuadrilateralsConcat(WithArea(init, a), WithArea([last], a));
      assert WithArea([last], a) == (if last.area == a then [last] else []);
      assert WithArea(KeptAlone(last), a) == Quadrilaterals(WithArea([last], a)) by {
        if last.area == a {
          assert Quadrilaterals([last]) == Quadrilaterals([]) + KeptAlone(last);
        }
      }
    }
  }

  predicate SortedByAreaDesc(s: seq<Contour>) {
    forall i, j :: 0 <= i < j < |s| ==> s[i].area >= s[j].area
  }

  /** The contours of s with the given area, in the order of s. */
  function WithArea(s: seq<Contour>, a: real): seq<Contour> {
    if |s| == 0 then [] else (if s[0].area == a then [s[0]] else []) + WithArea(s[1..], a)
  }

  lemma {:induction false} WithAreaConcat(s: seq<Contour>, t: seq<Contour>, a: real)
    ensures WithArea(s + t, a) == WithArea(s, a) + WithArea(t, a)
  {
    if |s| > 0 {
      assert (s + t)[1..] == s[1..] + t;
      WithAreaConcat(s[1..], t, a);
    } else {
      assert s + t == t;
    }
  }

  lemma {:induction false} WithAreaOfSmaller(s: seq<Contour>, a: real)
    requires forall i :: 0 <= i < |s| ==> s[i].area < a
    ensures WithArea(s, a) == []
  {
    if |s| > 0 {
      WithAreaOfSmaller(s[1..], a);
    }
  }

  /** Inserts c after every element whose area is at least c's: one step of a stable sort
      by decreasing area. */
  function InsertByArea(s: seq<Contour>, c: Contour): (r: seq<Contour>)
    ensures multiset(r) == multiset(s) + multiset{c}
    ensures forall x :: x in r <==> x in s || x == c
  {
    if |s| == 0 then [c]
    else if s[0].area >= c.area then
      assert s == [s[0]] + s[1..];
      [s[0]] + InsertByArea(s[1..], c)
    else
      [c] + s
  }

  /** sorted(rectCon, key=cv2.contourArea, reverse=True). */
  function SortByArea(cs: seq<Contour>): (r: seq<Contour>)
    ensures multiset(r) == multiset(cs)
    ensures SortedByAreaDesc(r)
  {
    if |cs| == 0 then []
    else
      assert cs == cs[..|cs| - 1] + [cs[|cs| - 1]];
      var sorted := SortByArea(cs[..|cs| - 1]);
      InsertKeepsSorted(sorted, cs[|cs| - 1]);
      InsertByArea(sorted, cs[|cs| - 1])
  }

  /** Inserting before the first strictly smaller contour keeps the order descending. */
  lemma {:induction false} InsertKeepsSorted(s: seq<Contour>, c: Contour)
    requires SortedByAreaDesc(s)
    ensures SortedByAreaDesc(InsertByArea(s, c))
  {
    if |s| > 0 && s[0].area >= c.area {
      InsertKeepsSorted(s[1..], c);
      InsertKeepsBound(s[1..], c, s[0].area);
      SortedCons(s[0], InsertByArea(s[1..], c));
    } else if |s| > 0 {
      SortedCons(c, s);
    }
  }

  predicate AreasAtMost(s: seq<Contour>, a: real) {
    forall i :: 0 <= i < |s| ==> s[i].area <= a
  }

  lemma {:induction false} InsertKeepsBound(s: seq<Contour>, c: Contour, a: real)
    requires AreasAtMost(s, a) && c.area <= a
    ensures AreasAtMost(InsertByArea(s, c), a)
  {
    if |s| > 0 && s[0].area >= c.area {
      InsertKeepsBound(s[1..], c, a);
    }
  }

  lemma SortedCons(h: Contour, t: seq<Contour>)
    requires SortedByAreaDesc(t)
    requires AreasAtMost(t, h.area) || (|t| > 0 && t[0].area <= h.area)
    ensures SortedByAreaDesc([h] + t)
  {
    var r := [h] + t;
    forall i, j | 0 <= i < j < |r|
      ensures r[i].area >= r[j].area
    {
      assert r[j] == t[j - 1];
      if i > 0 {
        assert r[i] == t[i - 1];
      } else if j > 1 {
        assert t[0].area >= t[j - 1].area;
      }
    }
  }

  lemma {:induction false} InsertKeepsEqualAreaOrder(s: seq<Contour>, c: Contour, a: real)
    requires SortedByAreaDesc(s)
    ensures WithArea(InsertByArea(s, c), a) == WithArea(s, a) + (if c.area == a then [c] else [])
  {
    if |s| == 0 {
    } else if s[0].area >= c.area {
      SortedTail(s);
      InsertKeepsEqualAreaOrder(s[1..], c, a);
      InsertBehind(s, c, a);
    } else {
      InsertInFront(s, c, a);
    }
  }

  /** A contour no larger than the first of s goes behind it, so the order of equal areas
      follows from that in the rest of s. */
  lemma InsertBehind(s: seq<Contour>, c: Contour, a: real)
    requires |s| > 0 && s[0].area >= c.area
    requires WithArea(InsertByArea(s[1..], c), a) == WithArea(s[1..], a) + (if c.area == a then [c] else [])
    ensures WithArea(InsertByArea(s, c), a) == WithArea(s, a) + (if c.area == a then [c] else [])
  {
    var rest := InsertByArea(s[1..], c);
    InsertGoesBehind(s, c);
    assert s == [s[0]] + s[1..];
    WithAreaCons(s[0], rest, a);
    WithAreaCons(s[0], s[1..], a);
    var h, e := if s[0].area == a then [s[0]] else [], if c.area == a then [c] else [];
    assert h + (WithArea(s[1..], a) + e) == (h + WithArea(s[1..], a)) + e;
  }

  lemma InsertGoesBehind(s: seq<Contour>, c: Contour)
    requires |s| > 0 && s[0].area >= c.area
    ensures InsertByArea(s, c) == [s[0]] + InsertByArea(s[1..], c)
  {
  }

  lemma WithAreaCons(x: Contour, t: seq<Contour>, a: real)
    ensures WithArea([x] + t, a) == (if x.area == a then [x] else []) + WithArea(t, a)
  {
    assert ([x] + t)[1..] == t;
  }

  /** A contour larger than all of s goes in front, and s has none of its area. */
  lemma InsertInFront(s: seq<Contour>, c: Contour, a: real)
    requires |s| > 0 && SortedByAreaDesc(s) && s[0].area < c.area
    ensures WithArea(InsertByArea(s, c), a) == WithArea(s, a) + (if c.area == a then [c] else [])
  {
    assert InsertByArea(s, c) == [c] + s;
    assert forall i :: 0 <= i < |s| ==> s[i].area < c.area;
    if c.area == a {
      WithAreaOfSmaller(s, a);
    }
    assert ([c] + s)[1..] == s;
  }

  lemma SortedTail(s: seq<Contour>)
    requires |s| > 0 && SortedByAreaDesc(s)
    ensures SortedByAreaDesc(s[1..])
  {
    forall i, j | 0 <= i < j < |s| - 1
      ensures s[1..][i].area >= s[1..][j].area
    {
      assert s[1..][i] == s[i + 1] && s[1..][j] == s[j + 1];
    }
  }

  /** Python's sort is stable, also with reverse=True: contours of equal area keep their
      input order. */
  lemma {:induction false} SortByAreaIsStable(cs: seq<Contour>, a: real)
    ensures WithArea(SortByArea(cs), a) == WithArea(cs, a)
  {
    if |cs| > 0 {
      var init, last := cs[..|cs| - 1], cs[|cs| - 1];
      assert cs == init + [last];
      WithAreaConcat(init, [last], a);
      SortByAreaIsStable(init, a);
      InsertKeepsEqualAreaOrder(SortByArea(init), last, a);
      assert WithArea([last], a) == (if last.area == a then [last] else []);
    }
  }

  /** rectContour: one pass appending the quadrilaterals, then the stable sort by decreasing area. */
  method RectContour(contours: seq<Contour>) returns (rectCon: seq<Contour>)
    ensures rectCon == SortByArea(Quadrilaterals(contours))
    ensures forall c :: c in rectCon <==> c in contours && IsQuadrilateral(c)
    ensures forall c :: multiset(rectCon)[c] == if IsQuadrilateral(c) then multiset(contours)[c] else 0
    ensures SortedByAreaDesc(rectCon)
    ensures forall a :: WithArea(rectCon, a) == Quadrilaterals(WithArea(contours, a))
  {
    rectCon := [];
    var i := 0;
    while i < |contours|
      invariant 0 <= i <= |contours|
      invariant rectCon == Quadrilaterals(contours[..i])
    {
      var c := contours[i];
      assert contours[..i + 1][..i] == contours[..i];
      if c.area > 50.0 {
        if |c.approx| == 4 {
          rectCon := rectCon + [c];
        }
      }
      i := i + 1;
    }
    assert contours[..i] == contours;
    ghost var kept := rectCon;
    rectCon := SortByArea(rectCon);
    assert forall c :: c in rectCon <==> c in kept by {
      forall c ensures c in rectCon <==> c in kept {
        assert c in rectCon <==> c in multiset(rectCon);
        assert c in kept <==> c in multiset(kept);
      }
    }
    QuadrilateralsMultiplicity(contours);
    forall a
      ensures WithArea(rectCon, a) == Quadrilaterals(WithArea(contours, a))
    {
      SortByAreaIsStable(kept, a);
      QuadrilateralsOfArea(contours, a);
    }
  }
}
