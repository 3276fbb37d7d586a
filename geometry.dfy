/** Box geometry of the PDF filler: the rectangle spanned by four calibrated
    corner points (`rectFromCornersMM_T2`, index.js:249-257, written out again
    as `rectFromCornersMM` at index.js:183-191, 420-428 and 533-541), the
    placement of a text inside such a box (`drawIntoBoxMM`, index.js:193-216,
    and the date box of the card, index.js:312-343) and the white band behind
    the wrapped address lines of the card (index.js:297-308).

    Coordinates are exact reals. Corner points are in millimetres measured
    from the top left of an A4 page; the PDF places points from the bottom
    left. Font metrics, which the source asks of the embedded font, are
    parameters. */
module Geometry {

  /** A calibrated point: `x` from the left edge, `y` from the top edge, in mm. */
  datatype Point = Point(x: real, y: real)

  /** The four calibrated corners of a box: bottom left, top left, bottom
      right, top right. Calibration is by hand, so they need not be aligned. */
  datatype Corners = Corners(solAlt: Point, solUst: Point, sagAlt: Point, sagUst: Point)

  /** An axis-aligned box in mm: left edge, top edge, width, height. */
  datatype Rect = Rect(xMm: real, yTopMm: real, wMm: real, hMm: real)

  /** `Math.min(a, b, c, d)`: one of the four, and below all of them. */
  function Min4(a: real, b: real, c: real, d: real): (m: real)
    ensures m <= a && m <= b && m <= c && m <= d
    ensures m == a || m == b || m == c || m == d
  {
    var ab := if a <= b then a else b;
    var cd := if c <= d then c else d;
    if ab <= cd then ab else cd
  }

  /** `Math.max(a, b, c, d)`: one of the four, and above all of them. */
  function Max4(a: real, b: real, c: real, d: real): (m: real)
    ensures m >= a && m >= b && m >= c && m >= d
    ensures m == a || m == b || m == c || m == d
  {
    var ab := if a >= b then a else b;
    var cd := if c >= d then c else d;
    if ab >= cd then ab else cd
  }

  /** `rectFromCornersMM_T2`: the smallest axis-aligned box around the corners. */
  function RectFromCorners(c: Corners): (r: Rect)
    ensures r.wMm >= 0.0 && r.hMm >= 0.0
  {
    var minX := Min4(c.solAlt.x, c.solUst.x, c.sagAlt.x, c.sagUst.x);
    var maxX := Max4(c.solAlt.x, c.solUst.x, c.sagAlt.x, c.sagUst.x);
    var topMm := Min4(c.solAlt.y, c.solUst.y, c.sagAlt.y, c.sagUst.y);
    var botMm := Max4(c.solAlt.y, c.solUst.y, c.sagAlt.y, c.sagUst.y);
    Rect(minX, topMm, maxX - minX, botMm - topMm)
  }

  function CornerSet(c: Corners): set<Point> {
    {c.solAlt, c.solUst, c.sagAlt, c.sagUst}
  }

  predicate Inside(p: Point, r: Rect) {
    r.xMm <= p.x <= r.xMm + r.wMm && r.yTopMm <= p.y <= r.yTopMm + r.hMm
  }

  /** `inner` lies within `outer`. */
  predicate Within(inner: Rect, outer: Rect) {
    outer.xMm <= inner.xMm && inner.xMm + inner.wMm <= outer.xMm + outer.wMm &&
    outer.yTopMm <= inner.yTopMm && inner.yTopMm + inner.hMm <= outer.yTopMm + outer.hMm
  }

  /** The box holds all four corners. */
  lemma RectCovers(c: Corners)
    ensures forall p :: p in CornerSet(c) ==> Inside(p, RectFromCorners(c))
  {
    var r := RectFromCorners(c);
    assert Inside(c.solAlt, r) && Inside(c.solUst, r) && Inside(c.sagAlt, r) && Inside(c.sagUst, r);
  }

  /** Every box holding the four corners holds this one: it is the smallest. */
  lemma RectTight(c: Corners, r: Rect)
    requires forall p :: p in CornerSet(c) ==> Inside(p, r)
    ensures Within(RectFromCorners(c), r)
  {
    assert Inside(c.solAlt, r) && Inside(c.solUst, r) && Inside(c.sagAlt, r) && Inside(c.sagUst, r);
  }

  /** Boxes within each other are equal. */
  lemma WithinBoth(a: Rect, b: Rect)
    requires Within(a, b) && Within(b, a)
    ensures a == b
  {
  }

  /** The box depends on the set of corner points only: which corner is
      given under which name (a permutation of the four) does not matter. */
  lemma SameCornersSameRect(c: Corners, d: Corners)
    requires CornerSet(c) == CornerSet(d)
    ensures RectFromCorners(c) == RectFromCorners(d)
  {
    RectCovers(c);
    RectCovers(d);
    RectTight(c, RectFromCorners(d));
    RectTight(d, RectFromCorners(c));
    WithinBoth(RectFromCorners(c), RectFromCorners(d));
  }

  /** The corners of an axis-aligned box. */
  function CornersOf(r: Rect): Corners {
    Corners(Point(r.xMm, r.yTopMm + r.hMm), Point(r.xMm, r.yTopMm),
            Point(r.xMm + r.wMm, r.yTopMm + r.hMm), Point(r.xMm + r.wMm, r.yTopMm))
  }

  /** The corners of an axis-aligned box give the box back. */
  lemma AlignedUnchanged(r: Rect)
    requires r.wMm >= 0.0 && r.hMm >= 0.0
    ensures RectFromCorners(CornersOf(r)) == r
  {
  }

  // ---------------------------------------------------------------------
  // Millimetres on the page
  // ---------------------------------------------------------------------

  /** The page size in points, as the PDF reports it. */
  datatype Page = Page(wPt: real, hPt: real)

  /** An A4 page is 210 mm wide and 297 mm high, whatever its size in points. */
  /** `ptPerMmX`: points per millimetre across the page, whose 210 mm span
      its whole width. */
  function PtPerMmX(page: Page): (k: real)
    ensures k * 210.0 == page.wPt
    ensures page.wPt > 0.0 ==> k > 0.0
  {
    page.wPt / 210.0
  }

  /** `ptPerMmY`: points per millimetre down the page, whose 297 mm span its
      whole height. */
  function PtPerMmY(page: Page): (q: real)
    ensures q * 297.0 == page.hPt
    ensures page.hPt > 0.0 ==> q > 0.0
  {
    page.hPt / 297.0
  }

  /** `mmX`: a horizontal length or position in mm, in points. */
  function MmX(page: Page, mm: real): real {
    mm * PtPerMmX(page)
  }

  /** `mmYFromTopToPdfY`: a distance from the top edge in mm, as a PDF y. */
  function PdfY(page: Page, topMm: real): real {
    page.hPt - topMm * PtPerMmY(page)
  }

  /** The page's edges: 0 and 210 mm across are its left and right edges,
      0 and 297 mm down its top and bottom edges. */
  lemma PageEdges(page: Page)
    ensures MmX(page, 0.0) == 0.0 && MmX(page, 210.0) == page.wPt
    ensures PdfY(page, 0.0) == page.hPt && PdfY(page, 297.0) == 0.0
  {
  }

  /** A rectangle in PDF points: lower left corner, width and height. */
  datatype PdfRect = PdfRect(x: real, y: real, w: real, h: real)

  /** What `drawIntoBoxMM` draws: a white rectangle and a text at a position. */
  datatype Placement = Placement(erase: PdfRect, tx: real, ty: real)

  const PadMm: real := 0.8
  const TinyUpMm: real := 0.5

  /** `drawIntoBoxMM(boxMM, text, size, leftAlign)` for a text of the given
      width and height at that size. */
  function DrawIntoBox(page: Page, boxMM: Corners, textWidth: real, textHeight: real, leftAlign: bool): (p: Placement)
    ensures !leftAlign ==> p.tx + textWidth / 2.0 == p.erase.x + p.erase.w / 2.0
    ensures p.ty + textHeight / 2.0 == p.erase.y + p.erase.h / 2.0 + TinyUpMm * PtPerMmY(page)
  {
    var box := RectFromCorners(boxMM);
    var x := MmX(page, box.xMm);
    var yTop := PdfY(page, box.yTopMm);
    var w := MmX(page, box.wMm);
    var h := box.hMm * PtPerMmY(page);
    var yBottom := yTop - h;
    var pad := MmX(page, PadMm);
    var tx := if leftAlign then x + pad else x + (w - textWidth) / 2.0;
    var ty := yBottom + (h - textHeight) / 2.0 + TinyUpMm * PtPerMmY(page);
    Placement(PdfRect(x, yBottom, w, h), tx, ty)
  }

  /** The white rectangle is the box carried onto the page: its left and
      right edges are the box's, its top edge the box's top, its bottom edge
      the box's bottom. */
  lemma EraseIsBox(page: Page, boxMM: Corners, textWidth: real, textHeight: real, leftAlign: bool)
    ensures var p := DrawIntoBox(page, boxMM, textWidth, textHeight, leftAlign);
      var box := RectFromCorners(boxMM);
      p.erase.x == MmX(page, box.xMm) && p.erase.x + p.erase.w == MmX(page, box.xMm + box.wMm) &&
      p.erase.y + p.erase.h == PdfY(page, box.yTopMm) && p.erase.y == PdfY(page, box.yTopMm + box.hMm)
  {
    var box := RectFromCorners(boxMM);
    var k := PtPerMmX(page);
    var q := PtPerMmY(page);
    assert box.xMm * k + box.wMm * k == (box.xMm + box.wMm) * k;
    assert page.hPt - box.yTopMm * q - box.hMm * q == page.hPt - (box.yTopMm + box.hMm) * q;
  }

  /** A centred text has equal room on its left and right in the white
      rectangle, and equal room above and below before it is lifted by half a
      millimetre; a left-aligned one starts 0.8 mm in. */
  lemma TextPlaced(page: Page, boxMM: Corners, textWidth: real, textHeight: real, leftAlign: bool)
    ensures var p := DrawIntoBox(page, boxMM, textWidth, textHeight, leftAlign);
      var lift := TinyUpMm * PtPerMmY(page);
      (p.ty - lift) - p.erase.y == (p.erase.y + p.erase.h) - (p.ty - lift + textHeight) &&
      (leftAlign ==> p.tx == p.erase.x + MmX(page, PadMm)) &&
      (!leftAlign ==> p.tx - p.erase.x == (p.erase.x + p.erase.w) - (p.tx + textWidth))
  {
  }

  /** On a page of positive size each calibrated corner falls inside the
      white rectangle. */
  lemma EraseCoversCorners(page: Page, boxMM: Corners, textWidth: real, textHeight: real, leftAlign: bool)
    requires page.wPt > 0.0 && page.hPt > 0.0
    ensures var p := DrawIntoBox(page, boxMM, textWidth, textHeight, leftAlign);
      forall c :: c in CornerSet(boxMM) ==>
        p.erase.x <= MmX(page, c.x) <= p.erase.x + p.erase.w &&
        p.erase.y <= PdfY(page, c.y) <= p.erase.y + p.erase.h
  {
    var box := RectFromCorners(boxMM);
    RectCovers(boxMM);
    EraseIsBox(page, boxMM, textWidth, textHeight, leftAlign);
    forall c | c in CornerSet(boxMM)
      ensures MmX(page, box.xMm) <= MmX(page, c.x) <= MmX(page, box.xMm + box.wMm)
      ensures PdfY(page, box.yTopMm + box.hMm) <= PdfY(page, c.y) <= PdfY(page, box.yTopMm)
    {
      PointOnPage(page, box, c);
    }
  }

  /** A point inside a box is carried inside the box's image on the page. */
  lemma PointOnPage(page: Page, r: Rect, c: Point)
    requires page.wPt > 0.0 && page.hPt > 0.0 && Inside(c, r)
    ensures MmX(page, r.xMm) <= MmX(page, c.x) <= MmX(page, r.xMm + r.wMm)
    ensures PdfY(page, r.yTopMm + r.hMm) <= PdfY(page, c.y) <= PdfY(page, r.yTopMm)
  {
    ScaleMono(r.xMm, c.x, PtPerMmX(page));
    ScaleMono(c.x, r.xMm + r.wMm, PtPerMmX(page));
    ScaleMono(r.yTopMm, c.y, PtPerMmY(page));
    ScaleMono(c.y, r.yTopMm + r.hMm, PtPerMmY(page));
  }

  lemma ScaleMono(a: real, b: real, k: real)
    requires a <= b && k > 0.0
    ensures a * k <= b * k
  {
  }

  // ---------------------------------------------------------------------
  // The date box of the card
  // ---------------------------------------------------------------------

  /** `MM_TO_PT`, points per millimetre. */
  const MmToPt: real := 2.834645669
  const A4HeightMm: real := 297.0
  /** The date box and its text are moved down by three points. */
  const OffsetDown: real := -3.0

  /** The fixed calibration of the date box (`FIXED_KOS_MM`). */
  const DateCorners: Corners :=
    Corners(Point(92.4, 159.1), Point(92.1, 156.9), Point(117.7, 159.5), Point(117.6, 156.2))

  /** `mm2pt`: an inch, 25.4 mm, is 72 points to within 10^-4. */
  function Mm2Pt(mm: real): (pt: real)
    ensures mm == 25.4 ==> 71.9999 < pt <= 72.0
    ensures mm >= 0.0 ==> pt >= 0.0
  {
    mm * MmToPt
  }

  /** `topMmToPdfYpt`: the bottom of an A4 page is at 0, its top edge at
      297 mm in points. */
  function TopMmToPdfY(topMm: real): (y: real)
    ensures topMm == A4HeightMm ==> y == 0.0
    ensures topMm == 0.0 ==> y == Mm2Pt(A4HeightMm)
  {
    Mm2Pt(A4HeightMm - topMm)
  }

  /** What the card draws for the date: a white rectangle and the date text,
      centred in the box shrunk by 0.8 mm on every side. */
  function DateBox(textWidth: real, textHeight: real): (p: Placement)
    ensures p.erase.w == Mm2Pt(25.6) && p.erase.h == Mm2Pt(3.3)
    ensures p.erase.y + p.erase.h == TopMmToPdfY(156.2) + OffsetDown
  {
    var r := RectFromCorners(DateCorners);
    var xPt := Mm2Pt(r.xMm);
    var yTopPt := TopMmToPdfY(r.yTopMm);
    var wPt := Mm2Pt(r.wMm);
    var hPt := Mm2Pt(r.hMm);
    var yBottomPt := yTopPt - hPt;
    var padPt := Mm2Pt(PadMm);
    var xInner := xPt + padPt;
    var yInner := yBottomPt + padPt + OffsetDown;
    var wInner := wPt - 2.0 * padPt;
    var hInner := hPt - 2.0 * padPt;
    Placement(PdfRect(xPt, yBottomPt + OffsetDown, wPt, hPt),
              xInner + (wInner - textWidth) / 2.0, yInner + (hInner - textHeight) / 2.0)
  }

  /** The date box spans x from 92.1 mm to 117.7 mm and y from 156.2 mm to
      159.5 mm. */
  lemma DateBoxMm()
    ensures RectFromCorners(DateCorners) == Rect(92.1, 156.2, 25.6, 3.3)
  {
  }

  /** The date text is centred in the white rectangle, both ways: the inner
      padding is the same on every side, so it cancels. */
  lemma DateCentred(textWidth: real, textHeight: real)
    ensures var p := DateBox(textWidth, textHeight);
      p.tx - p.erase.x == (p.erase.x + p.erase.w) - (p.tx + textWidth) &&
      p.ty - p.erase.y == (p.erase.y + p.erase.h) - (p.ty + textHeight)
  {
  }

  // ---------------------------------------------------------------------
  // The address band of the card
  // ---------------------------------------------------------------------

  /** `adresPos`: where the first address line starts, in points. */
  const AddressX: real := 345.0
  const AddressY: real := 585.0

  /** The distance between address lines: the font height plus two points. */
  function LineHeight(textHeight: real): real {
    textHeight + 2.0
  }

  /** The white band erased behind `count` address lines (at least one line's
      worth even when there is none). */
  function AddressBand(textHeight: real, count: nat): (b: PdfRect)
    ensures b.y + b.h == AddressY + 12.0
    ensures textHeight >= 0.0 ==> b.h >= 14.0
  {
    var lineH := LineHeight(textHeight);
    var total := if count >= 1 then count else 1;
    var rectY := AddressY - 2.0 - (total - 1) as real * lineH;
    var rectH := 14.0 + (total - 1) as real * lineH;
    PdfRect(AddressX - 2.0, rectY, 400.0, rectH)
  }

  /** The baseline of the `i`-th address line. */
  function Baseline(textHeight: real, i: nat): real {
    AddressY - i as real * LineHeight(textHeight)
  }

  /** The band always ends 12 points above the first line, however many lines
      there are; it grows downwards and ends 2 points below the baseline of
      the last line, so every baseline lies in the band. */
  lemma BandHoldsLines(textHeight: real, count: nat)
    requires textHeight >= 0.0
    ensures var b := AddressBand(textHeight, count); b.y + b.h == AddressY + 12.0
    ensures var b := AddressBand(textHeight, count);
      count >= 1 ==> b.y + 2.0 == Baseline(textHeight, count - 1)
    ensures var b := AddressBand(textHeight, count);
      forall i :: 0 <= i < count ==> b.y + 2.0 <= Baseline(textHeight, i) <= AddressY
  {
    forall i | 0 <= i < count
      ensures AddressBand(textHeight, count).y + 2.0 <= Baseline(textHeight, i) <= AddressY
    {
      BaselineInBand(textHeight, count, i);
    }
  }

  /** Line `i` of `count` lies between the first and the last baseline. */
  lemma BaselineInBand(textHeight: real, count: nat, i: nat)
    requires textHeight >= 0.0 && i < count
    ensures AddressY - (count - 1) as real * LineHeight(textHeight) <= Baseline(textHeight, i) <= AddressY
  {
    ScaleMono(i as real, (count - 1) as real, LineHeight(textHeight));
    ScaleMono(0.0, i as real, LineHeight(textHeight));
  }
}
