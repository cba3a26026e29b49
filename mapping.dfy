/** The two coordinate systems of the preview: source pixels of the loaded
    image and display pixels of the scaled picture drawn on the panel. The
    display size is the image scaled to fit the panel, truncated; a selection
    maps to a source box through floor and ceil, and a source box maps back
    to the display through `round`. */
module Mapping {
  import opened Python
  import opened Geometry

  type Pos = n: int | n > 0 witness 1

  /** The pixel size of a loaded image. */
  datatype ImageSize = ImageSize(w: Pos, h: Pos)

  /** Where the picture is drawn: its display size and its offset in the panel. */
  datatype Layout = Layout(display: Display, ox: int, oy: int)

  // ---------------------------------------------------------------- display geometry

  /** The fit scale: the smaller of the two panel-to-image quotients. */
  function FitScale(pw: nat, ph: nat, img: ImageSize): (s: real)
    ensures s >= 0.0
    ensures s <= pw as real / img.w as real && s <= ph as real / img.h as real
    ensures s == pw as real / img.w as real || s == ph as real / img.h as real
  {
    MinReal(pw as real / img.w as real, ph as real / img.h as real)
  }

  /** `UpdateDisplayGeometry` for a panel of `pw` by `ph`: each image side
      times the fit scale, truncated by `int()`, and the picture centred with
      `//`. */
  function Fit(pw: nat, ph: nat, img: ImageSize): (g: Layout)
  {
    var scale := FitScale(pw, ph, img);
    var dw, dh := TruncShare(img.w, scale), TruncShare(img.h, scale);
    Layout(Display(dw, dh), FloorDiv(pw - dw, 2), FloorDiv(ph - dh, 2))
  }

  /** The picture fits the panel and fills it along at least one side; the
      margins left over are split evenly, the odd pixel on the right or bottom. */
  lemma FitFills(pw: nat, ph: nat, img: ImageSize)
    ensures var g := Fit(pw, ph, img);
            0 <= g.display.w <= pw && 0 <= g.display.h <= ph &&
            (g.display.w == pw || g.display.h == ph) &&
            0 <= 2 * g.ox <= pw - g.display.w <= 2 * g.ox + 1 &&
            0 <= 2 * g.oy <= ph - g.display.h <= 2 * g.oy + 1
  {
    var iw, ih := img.w, img.h;
    var a, b := pw as real / iw as real, ph as real / ih as real;
    if a <= b {
      assert FitScale(pw, ph, img) == a;
      ShareCancel(iw, pw);
      ShareAtMost(ih, a, ph);
    } else {
      assert FitScale(pw, ph, img) == b;
      ShareCancel(ih, ph);
      ShareAtMost(iw, b, pw);
    }
  }

  /** Each display side is its image side's share under the fit scale, rounded down. */
  lemma FitKeepsProportion(pw: nat, ph: nat, img: ImageSize)
    ensures var g := Fit(pw, ph, img);
            var s := FitScale(pw, ph, img);
            IsShare(g.display.w, img.w, s) && IsShare(g.display.h, img.h, s)
  {
    var s := FitScale(pw, ph, img);
    if s > 0.0 {
      ShareBound(img.w, s);
      ShareBound(img.h, s);
    } else {
      assert s == 0.0;
      assert img.w as real * s == 0.0 && img.h as real * s == 0.0;
    }
  }

  /** The share of `n` under `p / n` is `p` itself. */
  lemma ShareCancel(n: int, p: int)
    requires n > 0 && p >= 0
    ensures TruncShare(n, p as real / n as real) == p
  {
    assert n as real * (p as real / n as real) == p as real;
  }

  /** A share under a factor at most `p / n` is at most `p`. */
  lemma ShareAtMost(n: int, k: real, p: int)
    requires n > 0 && p >= 0 && 0.0 <= k <= p as real / n as real
    ensures 0 <= TruncShare(n, k) <= p
  {
    var q := p as real / n as real;
    assert n as real * k <= n as real * q by { MulLe(k, q, n as real); }
    assert n as real * q == p as real;
    assert 0.0 <= n as real * k by { MulLe(0.0, k, n as real); }
  }

  // ---------------------------------------------------------------- display to source

  /** What `GetCropBox` gives: nothing without a selection or an image, a
      division by zero on a display with a zero side, or the source box. */
  datatype BoxOutcome = NoBox | DivideByZero | Box(x1: int, y1: int, x2: int, y2: int)

  /** `GetCropBox`: the start corner scaled by the display-to-source factor
      and floored, the end corner scaled and ceiled, then the start clamped to
      `[0, iw - 1]` and the end to `[start + 1, iw]` (likewise vertically). */
  function CropBox(crop: Option<Rect>, image: Option<ImageSize>, d: Display): (b: BoxOutcome)
    ensures b == NoBox <==> crop.None? || image.None?
    ensures b == DivideByZero <==> crop.Some? && image.Some? && (d.w == 0 || d.h == 0)
    ensures b.Box? ==> 0 <= b.x1 < b.x2 <= image.value.w && 0 <= b.y1 < b.y2 <= image.value.h
  {
    if crop.None? || image.None? then NoBox
    else if d.w == 0 || d.h == 0 then DivideByZero
    else
      var r, iw, ih := crop.value, image.value.w, image.value.h;
      var sx, sy := iw as real / d.w as real, ih as real / d.h as real;
      var x1 := Max(0, Min(iw - 1, Floor(Scale(r.x, sx))));
      var y1 := Max(0, Min(ih - 1, Floor(Scale(r.y, sy))));
      var x2 := Max(x1 + 1, Min(iw, Ceil(Scale(r.x + r.w, sx))));
      var y2 := Max(y1 + 1, Min(ih, Ceil(Scale(r.y + r.h, sy))));
      Box(x1, y1, x2, y2)
  }

  /** For a selection inside a non-empty display none of the clamps act: the
      box is the floored start and the ceiled end of the scaled selection. */
  lemma CropBoxUnclamped(r: Rect, img: ImageSize, d: Display)
    requires d.w > 0 && d.h > 0 && ValidIn(r, d)
    ensures var sx, sy := img.w as real / d.w as real, img.h as real / d.h as real;
            CropBox(Some(r), Some(img), d) ==
            Box(Floor(Scale(r.x, sx)), Floor(Scale(r.y, sy)),
                Ceil(Scale(r.x + r.w, sx)), Ceil(Scale(r.y + r.h, sy)))
  {
    SpanUnclamped(r.x, r.w, img.w, d.w);
    SpanUnclamped(r.y, r.h, img.h, d.h);
  }

  /** One axis of `CropBoxUnclamped`: a span `[v, v + len]` inside `[0, dw]`
      scales into `[0, iw]` with its floored start below its ceiled end. */
  lemma SpanUnclamped(v: int, len: int, iw: int, dw: int)
    requires iw > 0 && dw > 0 && v >= 0 && len > 0 && v + len <= dw
    ensures var s := iw as real / dw as real;
            0 <= Floor(Scale(v, s)) <= iw - 1 &&
            Floor(Scale(v, s)) + 1 <= Ceil(Scale(v + len, s)) <= iw
  {
    var s := iw as real / dw as real;
    assert s > 0.0;
    assert Scale(dw, s) == iw as real by { DivMul(iw as real, dw as real); }
    ScaleLt(v, v + len, s);
    ScaleLe(v + len, dw, s);
    ScaleLe(0, v, s);
  }

  /** An 1600 by 1200 image on an 800 by 600 panel fills the panel, and the
      selection (100, 100, 200, 200) maps to the source box (200, 200, 600, 600). */
  lemma CropBoxExample()
    ensures Fit(800, 600, ImageSize(1600, 1200)) == Layout(Display(800, 600), 0, 0)
    ensures CropBox(Some(Rect(100, 100, 200, 200)), Some(ImageSize(1600, 1200)), Display(800, 600)) ==
            Box(200, 200, 600, 600)
  {
    var img := ImageSize(1600, 1200);
    assert 800 as real / 1600 as real == 0.5 && 600 as real / 1200 as real == 0.5;
    assert FitScale(800, 600, img) == 0.5;
    assert TruncShare(1600, 0.5) == 800 && TruncShare(1200, 0.5) == 600;
    assert 1600 as real / 800 as real == 2.0 && 1200 as real / 600 as real == 2.0;
    assert Scale(100, 2.0) == 200.0 && Scale(300, 2.0) == 600.0;
    assert Floor(200.0) == 200 && Ceil(600.0) == 600;
  }

  // ---------------------------------------------------------------- source to display

  /** `round(v * dw / iw)`: a source coordinate brought back to the display. */
  function ToDisplay(v: real, dw: int, iw: Pos): (x: int)
    ensures AbsReal(x as real - v * (dw as real / iw as real)) <= 0.5
  {
    Round(v * (dw as real / iw as real))
  }

  /** When the image is a whole multiple `m` of the display size, the source
      box of a selection is the selection scaled by `m`, and bringing that box
      back to the display gives the selection again. */
  lemma WholeScaleRoundTrip(r: Rect, m: int, d: Display)
    requires m >= 1 && d.w > 0 && d.h > 0 && ValidIn(r, d)
    ensures var img := ImageSize(m * d.w, m * d.h);
            var b := Box(m * r.x, m * r.y, m * (r.x + r.w), m * (r.y + r.h));
            CropBox(Some(r), Some(img), d) == b &&
            ToDisplay(b.x1 as real, d.w, img.w) == r.x && ToDisplay(b.y1 as real, d.h, img.h) == r.y &&
            ToDisplay(b.x2 as real, d.w, img.w) == r.x + r.w && ToDisplay(b.y2 as real, d.h, img.h) == r.y + r.h
  {
    var img := ImageSize(m * d.w, m * d.h);
    CropBoxUnclamped(r, img, d);
    WholeAxis(r.x, r.w, m, d.w);
    WholeAxis(r.y, r.h, m, d.h);
  }

  /** One axis of `WholeScaleRoundTrip`. */
  lemma WholeAxis(v: int, len: int, m: int, dw: int)
    requires m >= 1 && dw > 0
    ensures var iw := m * dw;
            var s := iw as real / dw as real;
            Floor(Scale(v, s)) == m * v && Ceil(Scale(v + len, s)) == m * (v + len) &&
            ToDisplay((m * v) as real, dw, iw) == v && ToDisplay((m * (v + len)) as real, dw, iw) == v + len
  {
    var iw := m * dw;
    assert iw as real / dw as real == m as real;
    assert Scale(v, m as real) == (m * v) as real;
    assert Scale(v + len, m as real) == (m * (v + len)) as real;
    Shrink(v, m, dw);
    Shrink(v + len, m, dw);
  }

  /** `m * v` scaled by `dw / (m * dw)` is `v`. */
  lemma Shrink(v: int, m: int, dw: int)
    requires m >= 1 && dw > 0
    ensures ToDisplay((m * v) as real, dw, m * dw) == v
  {
    var k := dw as real / (m * dw) as real;
    assert k * m as real == 1.0;
    assert (m * v) as real * k == v as real;
  }

  /** When the image is at least as large as the display on both axes, the
      source box of a selection brought back to the display lands within one
      pixel of the selection: the start at most one pixel before it, the end
      at most one pixel after it. */
  lemma RoundTripNear(r: Rect, img: ImageSize, d: Display)
    requires d.w > 0 && d.h > 0 && ValidIn(r, d) && img.w >= d.w && img.h >= d.h
    ensures var b := CropBox(Some(r), Some(img), d);
            b.Box? &&
            r.x - 1 <= ToDisplay(b.x1 as real, d.w, img.w) <= r.x &&
            r.y - 1 <= ToDisplay(b.y1 as real, d.h, img.h) <= r.y &&
            r.x + r.w <= ToDisplay(b.x2 as real, d.w, img.w) <= r.x + r.w + 1 &&
            r.y + r.h <= ToDisplay(b.y2 as real, d.h, img.h) <= r.y + r.h + 1
  {
    CropBoxUnclamped(r, img, d);
    AxisNear(r.x, r.w, img.w, d.w);
    AxisNear(r.y, r.h, img.h, d.h);
  }

  /** One axis of `RoundTripNear`. */
  lemma AxisNear(v: int, len: int, iw: Pos, dw: int)
    requires dw > 0 && iw >= dw
    ensures var s := iw as real / dw as real;
            var x1, x2 := Floor(Scale(v, s)), Ceil(Scale(v + len, s));
            v - 1 <= ToDisplay(x1 as real, dw, iw) <= v &&
            v + len <= ToDisplay(x2 as real, dw, iw) <= v + len + 1
  {
    StartNear(v, iw, dw);
    EndNear(v + len, iw, dw);
  }

  /** The floored start of a span from `v` comes back at most one pixel before `v`. */
  lemma StartNear(v: int, iw: Pos, dw: int)
    requires dw > 0 && iw >= dw
    ensures v - 1 <= ToDisplay(Floor(Scale(v, iw as real / dw as real)) as real, dw, iw) <= v
  {
    InverseFactor(iw, dw);
    ScaleBack(v, Floor(Scale(v, iw as real / dw as real)), iw as real / dw as real, dw as real / iw as real);
  }

  /** The ceiled end of a span to `v` comes back at most one pixel after `v`. */
  lemma EndNear(v: int, iw: Pos, dw: int)
    requires dw > 0 && iw >= dw
    ensures v <= ToDisplay(Ceil(Scale(v, iw as real / dw as real)) as real, dw, iw) <= v + 1
  {
    InverseFactor(iw, dw);
    ScaleBackUp(v, Ceil(Scale(v, iw as real / dw as real)), iw as real / dw as real, dw as real / iw as real);
  }

  /** The display-to-image factor and its inverse, for an image at least as
      wide as the display. */
  lemma InverseFactor(iw: int, dw: int)
    requires dw > 0 && iw >= dw
    ensures (iw as real / dw as real) * (dw as real / iw as real) == 1.0
    ensures 0.0 < dw as real / iw as real <= 1.0
  {
    var a, b := iw as real, dw as real;
    assert (a / b) * (b / a) == (a * b) / (b * a);
    DivMul(b, a);
    AtMostOne(b / a, a);
  }

  lemma AtMostOne(q: real, a: real)
    requires a > 0.0 && q * a <= a
    ensures q <= 1.0
  {
    assert (1.0 - q) * a == a - q * a;
  }

  /** A whole `x` at most `v * s` and within one of it comes back under the
      inverse factor `t <= 1` to within one below `v`. */
  lemma ScaleBack(v: int, x: int, s: real, t: real)
    requires s * t == 1.0 && 0.0 < t <= 1.0
    requires x as real <= Scale(v, s) < x as real + 1.0
    ensures (v - 1) as real < x as real * t <= v as real
  {
    var w := v as real;
    MulLe(x as real, w * s, t);
    MulLt(w * s, x as real + 1.0, t);
    assert w * s * t == w * (s * t) == w;
    assert (x as real + 1.0) * t == x as real * t + t;
  }

  /** A whole `x` at least `v * s` and within one of it comes back under the
      inverse factor `t <= 1` to within one above `v`. */
  lemma ScaleBackUp(v: int, x: int, s: real, t: real)
    requires s * t == 1.0 && 0.0 < t <= 1.0
    requires Scale(v, s) <= x as real < Scale(v, s) + 1.0
    ensures v as real <= x as real * t < (v + 1) as real
  {
    var w := v as real;
    MulLe(w * s, x as real, t);
    MulLt(x as real, w * s + 1.0, t);
    assert w * s * t == w * (s * t) == w;
    assert (w * s + 1.0) * t == w * s * t + t;
    assert x as real * t < w + t;
    assert (v + 1) as real == w + 1.0;
  }
}
