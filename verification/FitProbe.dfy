/**
 The geometry of scripts/mermaid_fit_probe.py: zoom percentages and scroll
 offsets in integer division, and the contained rectangle in exact arithmetic.
 */
module FitProbe {
  const MAX_ZOOM := 1000

  function Max(a: int, b: int): int {
    if a >= b then a else b
  }

  function Min(a: int, b: int): int {
    if a <= b then a else b
  }

  function Clamp(value: int, lo: int, hi: int): int {
    Max(lo, Min(hi, value))
  }

  function DivCeil(value: nat, divisor: nat): nat {
    if divisor == 0 then 0 else (value + divisor - 1) / divisor
  }

  function AxisFillZoom(cells: nat, imagePx: nat, cellPx: nat): int {
    if cells == 0 || imagePx == 0 || cellPx == 0 then 100
    else Clamp(cells * cellPx * 100 / imagePx, 1, MAX_ZOOM)
  }

  function FitZoom(widthCells: nat, heightCells: nat, imgW: nat, imgH: nat, fontW: nat, fontH: nat): int {
    if widthCells == 0 || heightCells == 0 || imgW == 0 || imgH == 0 then 100
    else
      var zoomW := widthCells * Max(fontW, 1) * 100 / imgW;
      var zoomH := heightCells * Max(fontH, 1) * 100 / imgH;
      Clamp(Min(zoomW, zoomH), 1, MAX_ZOOM)
  }

  function CenteredScroll(imagePx: nat, areaCells: nat, zoom: nat, cellPx: nat): nat {
    if imagePx == 0 || areaCells == 0 || zoom == 0 || cellPx == 0 then 0
    else
      var viewPx: nat := areaCells * cellPx * 100 / zoom;
      var maxScrollPx: nat := Max(0, imagePx - viewPx);
      if maxScrollPx == 0 then 0
      else
        var cellPxAtZoom: nat := Max(DivCeil(cellPx * 100, zoom), 1);
        maxScrollPx / 2 / cellPxAtZoom
  }

  // ---------- the centred scroll ----------

  // Pixels of the image that the pane shows, and that one cell of scrolling moves.
  function ViewPx(areaCells: nat, zoom: nat, cellPx: nat): nat
    requires zoom > 0
  {
    areaCells * cellPx * 100 / zoom
  }

  function CellPxAtZoom(zoom: nat, cellPx: nat): nat
    requires zoom > 0
  {
    Max(DivCeil(cellPx * 100, zoom), 1)
  }

  lemma DivBounds(a: nat, d: nat)
    requires d > 0
    ensures a / d * d <= a < a / d * d + d
  {
    assert a == a / d * d + a % d;
  }

  /** Rounded up: the least number of divisors that cover the value. */
  lemma DivCeilCovers(value: nat, divisor: nat)
    requires divisor > 0
    ensures DivCeil(value, divisor) * divisor - divisor < value <= DivCeil(value, divisor) * divisor
    ensures DivCeil(value, 0) == 0
  {
    DivBounds(value + divisor - 1, divisor);
  }

  /** At z percent the pane shows its size divided by z percent, rounded down, and a cell its own, rounded up. */
  lemma ZoomedSizes(areaCells: nat, zoom: nat, cellPx: nat)
    requires zoom > 0 && cellPx > 0
    ensures var view := ViewPx(areaCells, zoom, cellPx);
            view * zoom <= areaCells * cellPx * 100 < view * zoom + zoom
    ensures var cell := CellPxAtZoom(zoom, cellPx); cell * zoom - zoom < cellPx * 100 <= cell * zoom
  {
    DivBounds(areaCells * cellPx * 100, zoom);
    DivCeilCovers(cellPx * 100, zoom);
    var q := DivCeil(cellPx * 100, zoom);
    assert q == 0 ==> q * zoom == 0;
  }

  lemma HalfThenCells(m: nat, c: nat)
    requires c > 0
    ensures 2 * (m / 2 / c * c) <= m < 2 * (m / 2 / c * c) + 2 * c
  {
    DivBounds(m / 2, c);
  }

  /** The scrolled view never leaves an image larger than it, and is off the exact middle by less than one cell. */
  lemma ScrollIsCentred(imagePx: nat, areaCells: nat, zoom: nat, cellPx: nat)
    requires imagePx > 0 && areaCells > 0 && zoom > 0 && cellPx > 0
    requires imagePx > ViewPx(areaCells, zoom, cellPx)
    ensures var start := CenteredScroll(imagePx, areaCells, zoom, cellPx) * CellPxAtZoom(zoom, cellPx);
            var view := ViewPx(areaCells, zoom, cellPx);
            && start + view <= imagePx
            && 2 * start <= imagePx - view < 2 * start + 2 * CellPxAtZoom(zoom, cellPx)
  {
    HalfThenCells(imagePx - ViewPx(areaCells, zoom, cellPx), CellPxAtZoom(zoom, cellPx));
  }

  /** There is nothing to scroll when the image is no larger than the view, or a size is missing. */
  lemma NothingToScroll(imagePx: nat, areaCells: nat, zoom: nat, cellPx: nat)
    requires imagePx == 0 || areaCells == 0 || zoom == 0 || cellPx == 0 || imagePx <= ViewPx(areaCells, zoom, cellPx)
    ensures CenteredScroll(imagePx, areaCells, zoom, cellPx) == 0
  {
  }

  // ---------- the fit zoom ----------

  // At z percent the image is no larger than the pane on this axis.
  predicate FitsAxis(cells: nat, imagePx: nat, cellPx: nat, z: int) {
    imagePx * z <= cells * cellPx * 100
  }

  lemma QuotientIsLargest(a: nat, d: nat, z: int)
    requires d > 0
    ensures d * z <= a <==> z <= a / d
  {
    DivBounds(a, d);
    if z <= a / d {
      assert d * z <= d * (a / d);
    } else {
      assert d * z >= d * (a / d + 1);
    }
  }

  lemma ClampOfMin(a: int, b: int)
    ensures Clamp(Min(a, b), 1, MAX_ZOOM) == Min(Clamp(a, 1, MAX_ZOOM), Clamp(b, 1, MAX_ZOOM))
  {
  }

  /**
   For positive sizes the fit zoom is the smaller of the two axis fill zooms, and the largest percentage up to 1000 at
   which the image fits on both axes; it is 1 when not even one percent fits.
   */
  lemma FitZoomIsLargestFit(w: nat, h: nat, imgW: nat, imgH: nat, fontW: nat, fontH: nat, z: int)
    requires w > 0 && h > 0 && imgW > 0 && imgH > 0 && fontW > 0 && fontH > 0
    ensures var fit := FitZoom(w, h, imgW, imgH, fontW, fontH);
            && fit == Min(AxisFillZoom(w, imgW, fontW), AxisFillZoom(h, imgH, fontH))
            && 1 <= fit <= 1000
            && (1 < z <= 1000 ==>
                  (z <= fit <==> FitsAxis(w, imgW, fontW, z) && FitsAxis(h, imgH, fontH, z)))
  {
    var zoomW, zoomH := w * fontW * 100 / imgW, h * fontH * 100 / imgH;
    QuotientIsLargest(w * fontW * 100, imgW, z);
    QuotientIsLargest(h * fontH * 100, imgH, z);
    ClampOfMin(zoomW, zoomH);
  }

  /** The fill zoom of one axis is the largest percentage from 1 to 1000 at which the image fits it, 1 if none does. */
  lemma AxisFillIsLargest(cells: nat, imagePx: nat, cellPx: nat, z: int)
    requires cells > 0 && imagePx > 0 && cellPx > 0
    ensures var fill := AxisFillZoom(cells, imagePx, cellPx);
            && 1 <= fill <= 1000
            && (1 < z <= 1000 ==> (z <= fill <==> FitsAxis(cells, imagePx, cellPx, z)))
  {
    QuotientIsLargest(cells * cellPx * 100, imagePx, z);
  }

  /** With a missing size the zooms are 100 percent; a missing font size counts as one pixel for the fit zoom. */
  lemma ZoomWithoutSizes(w: nat, h: nat, imgW: nat, imgH: nat, fontW: nat, fontH: nat)
    ensures w == 0 || imgW == 0 || fontW == 0 ==> AxisFillZoom(w, imgW, fontW) == 100
    ensures w == 0 || h == 0 || imgW == 0 || imgH == 0 ==> FitZoom(w, h, imgW, imgH, fontW, fontH) == 100
    ensures FitZoom(w, h, imgW, imgH, 0, fontH) == FitZoom(w, h, imgW, imgH, 1, fontH)
    ensures FitZoom(w, h, imgW, imgH, fontW, 0) == FitZoom(w, h, imgW, imgH, fontW, 1)
  {
  }

  // ---------- the contained rectangle ----------

  datatype Rect = Rect(x: int, y: int, width: int, height: int)

  function Ceil(r: real): int {
    -((-r).Floor)
  }

  function MinReal(a: real, b: real): real {
    if a <= b then a else b
  }

  // How many cells the scaled image takes, not yet rounded.
  function ScaledSize(imagePx: nat, scale: real, fontPx: nat): real
    requires fontPx > 0
  {
    imagePx as real * scale / fontPx as real
  }

  function FittedCells(imagePx: nat, scale: real, fontPx: nat, cells: nat): int
    requires fontPx > 0
  {
    Min(Ceil(ScaledSize(imagePx, scale, fontPx)), cells)
  }

  function VCenterFitted(widthCells: nat, heightCells: nat, imgW: nat, imgH: nat, fontW: nat, fontH: nat): Rect {
    if widthCells == 0 || heightCells == 0 || imgW == 0 || imgH == 0 then Rect(0, 0, widthCells, heightCells)
    else
      var cellW, cellH := Max(fontW, 1), Max(fontH, 1);
      var areaW, areaH := widthCells * cellW, heightCells * cellH;
      var scale := MinReal(areaW as real / imgW as real, areaH as real / imgH as real);
      var fittedW := FittedCells(imgW, scale, cellW, widthCells);
      var fittedH := FittedCells(imgH, scale, cellH, heightCells);
      Rect((widthCells - fittedW) / 2, (heightCells - fittedH) / 2, fittedW, fittedH)
  }

  lemma CeilBounds(r: real)
    ensures Ceil(r) as real >= r && (Ceil(r) - 1) as real < r
  {
  }

  // Scaled exactly onto the pane, an axis is filled to the last cell.
  lemma FullScaleFillsAxis(imagePx: nat, cells: nat, font: nat)
    requires imagePx > 0 && cells > 0 && font > 0
    ensures FittedCells(imagePx, (cells * font) as real / imagePx as real, font, cells) == cells
  {
    var i, c, f := imagePx as real, cells as real, font as real;
    assert (cells * font) as real == c * f;
    assert i * (c * f / i) == c * f;
    assert c * f / f == c;
    CeilOfInt(cells);
  }

  lemma SmallerScaleStaysPositive(imagePx: nat, scale: real, font: nat, cells: nat)
    requires imagePx > 0 && scale > 0.0 && font > 0 && cells > 0
    ensures 1 <= FittedCells(imagePx, scale, font, cells) <= cells
  {
    var r := imagePx as real * scale / font as real;
    assert imagePx as real * scale > 0.0;
    assert r > 0.0;
    CeilBounds(r);
  }

  /** In exact arithmetic the contained rectangle is not empty, lies inside the pane and spans it on an axis. */
  lemma ContainedRectSpansAnAxis(w: nat, h: nat, imgW: nat, imgH: nat, fontW: nat, fontH: nat)
    requires w > 0 && h > 0 && imgW > 0 && imgH > 0
    ensures var r := VCenterFitted(w, h, imgW, imgH, fontW, fontH);
            && 0 <= r.x && 0 <= r.y && 1 <= r.width && 1 <= r.height
            && r.x + r.width <= w && r.y + r.height <= h
            && (r.width == w || r.height == h)
  {
    hide FittedCells;
    var cellW: nat, cellH: nat := Max(fontW, 1), Max(fontH, 1);
    var scaleW := (w * cellW) as real / imgW as real;
    var scaleH := (h * cellH) as real / imgH as real;
    assert scaleW > 0.0 && scaleH > 0.0;
    var scale := MinReal(scaleW, scaleH);
    SmallerScaleStaysPositive(imgW, scale, cellW, w);
    SmallerScaleStaysPositive(imgH, scale, cellH, h);
    if scale == scaleW {
      FullScaleFillsAxis(imgW, w, cellW);
    } else {
      FullScaleFillsAxis(imgH, h, cellH);
    }
  }

  // An axis scaled by area/otherPx takes the least number of cells that hold it; the pane has that many.
  lemma ScaledCells(imagePx: nat, area: nat, otherPx: nat, font: nat, cells: nat)
    requires imagePx > 0 && area > 0 && otherPx > 0 && font > 0
    requires imagePx * area <= cells * (font * otherPx)
    ensures var fitted := FittedCells(imagePx, area as real / otherPx as real, font, cells);
            (fitted - 1) * (font * otherPx) < imagePx * area <= fitted * (font * otherPx)
  {
    hide ScaledSize, Min, Ceil;
    var scale := area as real / otherPx as real;
    UnscaledSize(imagePx, area, otherPx, font);
    Positive(font, otherPx);
    LeastCover(ScaledSize(imagePx, scale, font), cells, font * otherPx, imagePx * area);
  }

  lemma UnscaledSize(imagePx: nat, area: nat, otherPx: nat, font: nat)
    requires otherPx > 0 && font > 0
    ensures ScaledSize(imagePx, area as real / otherPx as real, font) * (font * otherPx) as real ==
            (imagePx * area) as real
  {
    Unscale(imagePx as real, area as real, otherPx as real, font as real);
    CastTimes(imagePx, area);
    CastTimes(font, otherPx);
  }

  lemma Unscale(i: real, a: real, o: real, f: real)
    requires o > 0.0 && f > 0.0
    ensures i * (a / o) / f * (f * o) == i * a
  {
    var s := i * (a / o);
    assert s / f * f == s;
    assert a / o * o == a;
    assert s / f * (f * o) == (s / f * f) * o;
    assert s * o == i * (a / o * o);
  }

  lemma Multiply(x: real, y: real, u: real)
    requires x <= y && u > 0.0
    ensures x * u <= y * u
  {
  }

  lemma MultiplyStrict(x: real, y: real, u: real)
    requires x < y && u > 0.0
    ensures x * u < y * u
  {
  }

  lemma Times(x: int, y: int, u: nat)
    requires x <= y
    ensures x * u <= y * u
  {
  }

  lemma CastTimes(n: int, u: int)
    ensures (n * u) as real == n as real * u as real
  {
  }

  lemma Positive(a: nat, b: nat)
    requires a > 0 && b > 0
    ensures a * b > 0
  {
  }

  lemma AtMostMultiple(v: real, n: int, unit: nat, total: nat)
    requires v <= n as real && unit > 0 && v * unit as real == total as real
    ensures total <= n * unit
  {
    Multiply(v, n as real, unit as real);
    CastTimes(n, unit);
  }

  lemma AboveMultiple(v: real, n: int, unit: nat, total: nat)
    requires n as real < v && unit > 0 && v * unit as real == total as real
    ensures n * unit < total
  {
    MultiplyStrict(n as real, v, unit as real);
    CastTimes(n, unit);
  }

  // Rounding a quotient up gives the least number of units that cover the total.
  lemma LeastCover(v: real, cells: nat, unit: nat, total: nat)
    requires unit > 0 && v * unit as real == total as real && total <= cells * unit
    ensures var fitted := Min(Ceil(v), cells); (fitted - 1) * unit < total <= fitted * unit
  {
    var up := Ceil(v);
    CeilBounds(v);
    AtMostMultiple(v, up, unit, total);
    AboveMultiple(v, up - 1, unit, total);
    NoMoreThan(up, cells, unit, total);
  }

  lemma NoMoreThan(up: int, cells: nat, unit: nat, total: nat)
    requires unit > 0 && (up - 1) * unit < total <= cells * unit
    ensures up <= cells
  {
    if up - 1 >= cells {
      Times(cells, up - 1, unit);
    }
  }

  // One ratio is the smaller exactly when its cross product is.
  lemma SmallerRatio(a: nat, b: nat, c: nat, d: nat)
    requires b > 0 && d > 0
    ensures a as real / b as real <= c as real / d as real <==> a * d <= c * b
  {
    var x, y := a as real / b as real, c as real / d as real;
    var u := b as real * d as real;
    assert u > 0.0;
    assert x * u == (x * b as real) * d as real == a as real * d as real == (a * d) as real;
    assert y * u == (y * d as real) * b as real == c as real * b as real == (c * b) as real;
    if x <= y {
      Multiply(x, y, u);
    } else {
      MultiplyStrict(y, x, u);
    }
  }

  /**
   The contained rectangle is centred up to one cell, and keeps the image's proportions: the axis with the smaller
   room for the image fills the pane, the other has the least number of cells that hold it at the same scale.
   */
  lemma ContainedRectIsCentredAndScaled(w: nat, h: nat, imgW: nat, imgH: nat, fontW: nat, fontH: nat)
    requires w > 0 && h > 0 && imgW > 0 && imgH > 0
    ensures var r := VCenterFitted(w, h, imgW, imgH, fontW, fontH);
            var cellW, cellH := if fontW == 0 then 1 else fontW, if fontH == 0 then 1 else fontH;
            var areaW, areaH := w * cellW, h * cellH;
            && 2 * r.x <= w - r.width <= 2 * r.x + 1 && 2 * r.y <= h - r.height <= 2 * r.y + 1
            && if areaW * imgH <= areaH * imgW
               then r.width == w
                    && (r.height - 1) * (cellH * imgW) < imgH * areaW <= r.height * (cellH * imgW)
               else r.height == h
                    && (r.width - 1) * (cellW * imgH) < imgW * areaH <= r.width * (cellW * imgH)
  {
    hide FittedCells;
    var cellW: nat, cellH: nat := Max(fontW, 1), Max(fontH, 1);
    var areaW, areaH := w * cellW, h * cellH;
    SmallerRatio(areaW, imgW, areaH, imgH);
    if areaW * imgH <= areaH * imgW {
      FullScaleFillsAxis(imgW, w, cellW);
      assert areaH * imgW == h * (cellH * imgW);
      ScaledCells(imgH, areaW, imgW, cellH, h);
    } else {
      FullScaleFillsAxis(imgH, h, cellH);
      assert areaW * imgH == w * (cellW * imgH);
      ScaledCells(imgW, areaH, imgH, cellW, w);
    }
  }

  /** An image or a pane without size is given the whole pane. */
  lemma NothingToContain(w: nat, h: nat, imgW: nat, imgH: nat, fontW: nat, fontH: nat)
    requires w == 0 || h == 0 || imgW == 0 || imgH == 0
    ensures VCenterFitted(w, h, imgW, imgH, fontW, fontH) == Rect(0, 0, w, h)
  {
  }

  lemma CeilOfInt(n: int)
    ensures Ceil(n as real) == n
  {
  }
}
