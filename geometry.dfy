/** The selection rectangle of the preview panel, in display coordinates:
    the normaliser that keeps it on the displayed image, creation, moving,
    free and ratio-locked resizing, applying a lock ratio, rescaling, the
    initial rectangle, and the hit tests for handles and edges. */
module Geometry {
  import opened Python
  import opened Text

  const MIN_CROP_SIZE: int := 4
  const HANDLE_SIZE: int := 10
  const EDGE_THRESHOLD: int := 5

  datatype Point = Point(x: int, y: int)

  /** A `wx.Rect`: integer position and size. */
  datatype Rect = Rect(x: int, y: int, w: int, h: int) {
    /** `wx.Rect.Right`: the last column inside the rectangle. */
    function Right(): int { x + w - 1 }
    /** `wx.Rect.Bottom`: the last row inside the rectangle. */
    function Bottom(): int { y + h - 1 }
    /** A `wx.Rect` is false exactly when all four fields are zero. */
    predicate Truthy() { !(x == 0 && y == 0 && w == 0 && h == 0) }
  }

  /** The size of the displayed (scaled) image: `display_w`, `display_h`. */
  datatype Display = Display(w: int, h: int)

  /** The names a drag handle takes: the eight resize handles, and `inside`
      for a move. */
  datatype Handle = TopLeft | Top | TopRight | Right | BottomRight | Bottom | BottomLeft | Left | Inside

  /** A rectangle inside the display and at least the minimum size. */
  predicate ValidIn(r: Rect, d: Display) {
    r.w >= MIN_CROP_SIZE && r.h >= MIN_CROP_SIZE && r.x >= 0 && r.y >= 0 &&
    r.x + r.w <= d.w && r.y + r.h <= d.h
  }

  /** A display large enough to hold a minimum-size rectangle. */
  predicate Roomy(d: Display) {
    d.w >= MIN_CROP_SIZE && d.h >= MIN_CROP_SIZE
  }

  // ---------------------------------------------------------------- the normaliser

  /** `_ensure_within_display`: the size is cut to the display and raised to
      the minimum, then the position is clamped so the rectangle fits. With no
      display area the result is the empty `wx.Rect()`. */
  function EnsureWithin(r: Rect, d: Display): (o: Rect)
    ensures d.w <= 0 || d.h <= 0 ==> o == Rect(0, 0, 0, 0)
    ensures d.w > 0 && d.h > 0 ==>
              o.w == Max(MIN_CROP_SIZE, Min(r.w, d.w)) && o.h == Max(MIN_CROP_SIZE, Min(r.h, d.h)) &&
              o.x == Max(0, Min(r.x, d.w - o.w)) && o.y == Max(0, Min(r.y, d.h - o.h))
    ensures d.w > 0 && d.h > 0 ==> o.w >= MIN_CROP_SIZE && o.h >= MIN_CROP_SIZE && o.x >= 0 && o.y >= 0
    ensures Roomy(d) ==> ValidIn(o, d)
    ensures ValidIn(r, d) ==> o == r
  {
    if d.w <= 0 || d.h <= 0 then Rect(0, 0, 0, 0)
    else
      var w1 := if r.w > d.w then d.w else r.w;
      var h1 := if r.h > d.h then d.h else r.h;
      var x1 := if r.x < 0 then 0 else r.x;
      var y1 := if r.y < 0 then 0 else r.y;
      var x2 := if Rect(x1, y1, w1, h1).Right() > d.w then d.w - w1 else x1;
      var y2 := if Rect(x2, y1, w1, h1).Bottom() > d.h then d.h - h1 else y1;
      var w3 := Max(MIN_CROP_SIZE, w1);
      var h3 := Max(MIN_CROP_SIZE, h1);
      Rect(Max(0, Min(x2, d.w - w3)), Max(0, Min(y2, d.h - h3)), w3, h3)
  }

  /** `_ensure_min_size`: the normaliser, a raise to the minimum size, and the
      normaliser again, which together act as the normaliser alone. */
  function EnsureMinSize(r: Rect, d: Display): (o: Rect)
    ensures o == EnsureWithin(r, d)
  {
    var r1 := EnsureWithin(r, d);
    var r2 := r1.(w := if r1.w < MIN_CROP_SIZE then MIN_CROP_SIZE else r1.w,
                  h := if r1.h < MIN_CROP_SIZE then MIN_CROP_SIZE else r1.h);
    EnsureWithin(r2, d)
  }

  /** Applying the normaliser twice is applying it once. */
  lemma EnsureWithinIdempotent(r: Rect, d: Display)
    ensures EnsureWithin(EnsureWithin(r, d), d) == EnsureWithin(r, d)
  {
    var o := EnsureWithin(r, d);
    if d.w > 0 && d.h > 0 {
      var o2 := EnsureWithin(o, d);
      assert o2.w == o.w && o2.h == o.h;
    }
  }

  // ---------------------------------------------------------------- points

  /** `_clamp_display_point`. */
  function ClampPoint(p: Point, d: Display): (q: Point)
    ensures d.w >= 0 && d.h >= 0 ==> 0 <= q.x <= d.w && 0 <= q.y <= d.h
    ensures InDisplay(p, d) ==> q == p
  {
    Point(Max(0, Min(p.x, d.w)), Max(0, Min(p.y, d.h)))
  }

  /** `_point_in_display`: both bounds included. */
  predicate InDisplay(p: Point, d: Display) {
    0 <= p.x <= d.w && 0 <= p.y <= d.h
  }

  /** `_rect_contains_point`: the closed rectangle, right and bottom edges included. */
  predicate ContainsClosed(r: Rect, p: Point) {
    r.x <= p.x <= r.x + r.w && r.y <= p.y <= r.y + r.h
  }

  /** `wx.Rect.Contains`: the half-open rectangle. */
  predicate ContainsHalfOpen(r: Rect, p: Point) {
    r.x <= p.x < r.x + r.w && r.y <= p.y < r.y + r.h
  }

  // ---------------------------------------------------------------- the lock ratio

  /** A ratio the callers act on: present and non-zero (a `0.0` is false in Python). */
  predicate RatioActive(ratio: Option<real>) {
    ratio.Some? && ratio.value != 0.0
  }

  /** The quotient `W / H` of a parsed lock text, unless `H` is zero. */
  function Quotient(p: Option<(real, real)>): (r: Option<real>)
    ensures r.Some? <==> p.Some? && p.value.1 != 0.0
    ensures r.Some? ==> r.value * p.value.1 == p.value.0
  {
    if p.None? || p.value.1 == 0.0 then None else Some(p.value.0 / p.value.1)
  }

  /** `_get_aspect_ratio`: `W / H` of the lock text when the lock is on, the
      text parses as two numbers around one colon and `H` is non-zero. */
  function AspectRatio(fixed: bool, text: string): (r: Option<real>)
    ensures !fixed ==> r == None
  {
    if !fixed then None else Quotient(ParseRatio(text))
  }

  lemma DefaultAspectRatio(t: string)
    requires t == "1:1"
    ensures AspectRatio(true, t) == Some(1.0)
    ensures AspectRatio(false, t) == None
  {
    DefaultRatioText(t);
  }

  // ---------------------------------------------------------------- creation

  /** `_create_rect_with_ratio`: the drag from `a` to `c` is shortened on one
      axis so that its extents follow the ratio, keeping `a` as a corner. */
  function CreateWithRatio(a: Point, c: Point, ratio: real, d: Display): (r: Rect)
    requires ratio != 0.0
    ensures d.w > 0 && d.h > 0 && (a.x != c.x || a.y != c.y) ==> r.w >= MIN_CROP_SIZE && r.h >= MIN_CROP_SIZE
  {
    var dx, dy := c.x - a.x, c.y - a.y;
    if dx == 0 && dy == 0 then Rect(a.x, a.y, 0, 0)
    else
      EnsureWithin(Toward(a, c, RatioExtents(Abs(dx), Abs(dy), ratio)), d)
  }

  /** From two distinct points the ratio step normalises the kept extents
      laid out from `a` towards `c`. */
  lemma RatioStep(a: Point, c: Point, ratio: real, d: Display)
    requires ratio != 0.0 && (a.x != c.x || a.y != c.y)
    ensures CreateWithRatio(a, c, ratio, d) ==
            EnsureWithin(Toward(a, c, RatioExtents(Abs(c.x - a.x), Abs(c.y - a.y), ratio)), d)
  {
    var dx, dy := c.x - a.x, c.y - a.y;
    assert !(dx == 0 && dy == 0);
  }

  /** The rectangle with corner `a` and extents `e`, lying towards `c`. */
  function Toward(a: Point, c: Point, e: (int, int)): (r: Rect)
    ensures r.w == Abs(e.0) && r.h == Abs(e.1)
    ensures (r.x == a.x || r.x + r.w == a.x) && (r.y == a.y || r.y + r.h == a.y)
  {
    var x2 := a.x + (if c.x >= a.x then e.0 else -e.0);
    var y2 := a.y + (if c.y >= a.y then e.1 else -e.1);
    Rect(Min(a.x, x2), Min(a.y, y2), Abs(x2 - a.x), Abs(y2 - a.y))
  }

  /** The extents `_create_rect_with_ratio` keeps from the drag extents
      `adx` and `ady`: a zero extent is first replaced by the other one's share,
      then the wider side (by the ratio) is cut back to the share of the other. */
  function RatioExtents(adx: int, ady: int, ratio: real): (e: (int, int))
    requires ratio != 0.0
    ensures ady != 0 && adx != 0 ==> e.0 == adx || e.1 == ady
    ensures e.0 == RoundTimes(e.1, ratio) || e.1 == RoundOver(e.0, ratio)
  {
    var ady1 := if ady == 0 then RoundOver(adx, ratio) else ady;
    var adx1 := if adx == 0 then RoundTimes(ady1, ratio) else adx;
    var cur := if ady1 != 0 then adx1 as real / ady1 as real else ratio;
    if cur > ratio then (RoundTimes(ady1, ratio), ady1) else (adx1, RoundOver(adx1, ratio))
  }

  /** `_create_rect`: both points are clamped to the display; under an active
      ratio the ratio path is taken, otherwise the bounding box of the two. */
  function CreateRect(anchor: Point, current: Point, ratio: Option<real>, d: Display): (r: Rect)
    ensures Roomy(d) ==> ValidIn(r, d)
  {
    var a, c := ClampPoint(anchor, d), ClampPoint(current, d);
    var rect := if RatioActive(ratio) then CreateWithRatio(a, c, ratio.value, d)
                else Rect(Min(a.x, c.x), Min(a.y, c.y), Abs(c.x - a.x), Abs(c.y - a.y));
    EnsureMinSize(rect, d)
  }

  /** Without a lock, a drag between two display points at least the minimum
      size apart on each axis selects exactly their bounding box. */
  lemma CreateFreeExact(anchor: Point, current: Point, ratio: Option<real>, d: Display)
    requires !RatioActive(ratio)
    requires InDisplay(anchor, d) && InDisplay(current, d)
    requires Abs(current.x - anchor.x) >= MIN_CROP_SIZE && Abs(current.y - anchor.y) >= MIN_CROP_SIZE
    ensures CreateRect(anchor, current, ratio, d) ==
            Rect(Min(anchor.x, current.x), Min(anchor.y, current.y),
                 Abs(current.x - anchor.x), Abs(current.y - anchor.y))
  {
    var b := Rect(Min(anchor.x, current.x), Min(anchor.y, current.y),
                  Abs(current.x - anchor.x), Abs(current.y - anchor.y));
    assert ValidIn(b, d);
  }

  /** The square of side `Min(|dx|, |dy|)` with `a` as the corner towards `c`. */
  function SquareFrom(a: Point, c: Point): Rect {
    var s := Min(Abs(c.x - a.x), Abs(c.y - a.y));
    Toward(a, c, (s, s))
  }

  /** Under ratio 1 the drag selects a square whose side is the shorter
      extent, with the anchor as one of its corners. */
  lemma CreateSquare(anchor: Point, current: Point, d: Display)
    requires InDisplay(anchor, d) && InDisplay(current, d)
    requires anchor.x != current.x && anchor.y != current.y
    requires Min(Abs(current.x - anchor.x), Abs(current.y - anchor.y)) >= MIN_CROP_SIZE
    ensures var r := CreateRect(anchor, current, Some(1.0), d);
            var s := Min(Abs(current.x - anchor.x), Abs(current.y - anchor.y));
            r.w == s && r.h == s &&
            (r.x == anchor.x || r.x + r.w == anchor.x) && (r.y == anchor.y || r.y + r.h == anchor.y)
  {
    SquareSelected(anchor, current, d);
  }

  /** Under ratio 1 the drag between two display points selects `SquareFrom` itself. */
  lemma SquareSelected(a: Point, c: Point, d: Display)
    requires InDisplay(a, d) && InDisplay(c, d)
    requires a.x != c.x && a.y != c.y
    requires Min(Abs(c.x - a.x), Abs(c.y - a.y)) >= MIN_CROP_SIZE
    ensures CreateRect(a, c, Some(1.0), d) == SquareFrom(a, c)
  {
    var b := SquareFrom(a, c);
    SquareFromFits(a, c, d);
    CreateInside(a, c, Some(1.0), d);
    SquarePath(a, c, d);
    assert EnsureWithin(b, d) == b;
    NormalisedFits(b, d);
  }

  /** The square towards a display point from a display point fits the display
      once its side is at least the minimum. */
  lemma SquareFromFits(a: Point, c: Point, d: Display)
    requires InDisplay(a, d) && InDisplay(c, d)
    requires Min(Abs(c.x - a.x), Abs(c.y - a.y)) >= MIN_CROP_SIZE
    ensures ValidIn(SquareFrom(a, c), d)
  {
  }

  /** For two display points under an active ratio the clamps do nothing and
      the ratio path is taken. */
  lemma CreateInside(a: Point, c: Point, ratio: Option<real>, d: Display)
    requires InDisplay(a, d) && InDisplay(c, d) && RatioActive(ratio)
    ensures CreateRect(a, c, ratio, d) == EnsureMinSize(CreateWithRatio(a, c, ratio.value, d), d)
  {
    assert ClampPoint(a, d) == a && ClampPoint(c, d) == c;
  }

  /** The ratio path under ratio 1 normalises `SquareFrom`. */
  lemma SquarePath(a: Point, c: Point, d: Display)
    requires a.x != c.x && a.y != c.y
    ensures CreateWithRatio(a, c, 1.0, d) == EnsureWithin(SquareFrom(a, c), d)
  {
    var adx, ady := Abs(c.x - a.x), Abs(c.y - a.y);
    var m := Min(adx, ady);
    RatioStep(a, c, 1.0, d);
    SquareExtents(adx, ady);
    assert Toward(a, c, (m, m)) == SquareFrom(a, c);
  }

  /** Under ratio 1 two non-zero extents both become the shorter one. */
  lemma SquareExtents(adx: int, ady: int)
    requires adx > 0 && ady > 0
    ensures RatioExtents(adx, ady, 1.0) == (Min(adx, ady), Min(adx, ady))
  {
    var cur := adx as real / ady as real;
    RoundTimesBy(ady, 1.0, 1);
    assert adx as real / 1.0 == adx as real;
    assert RoundOver(adx, 1.0) == adx;
    DivMul(adx as real, ady as real);
    if cur > 1.0 {
      MulLt(1.0, cur, ady as real);
      assert RatioExtents(adx, ady, 1.0) == (ady, ady);
    } else {
      MulLe(cur, 1.0, ady as real);
      assert RatioExtents(adx, ady, 1.0) == (adx, adx);
    }
  }

  // ---------------------------------------------------------------- move

  /** `_update_selection_move`: the original rectangle translated by the drag
      and normalised. */
  function MoveRect(orig: Rect, dx: int, dy: int, d: Display): (r: Rect)
    ensures Roomy(d) ==> ValidIn(r, d)
    ensures ValidIn(orig, d) ==>
              r.w == orig.w && r.h == orig.h &&
              r.x == Max(0, Min(orig.x + dx, d.w - orig.w)) && r.y == Max(0, Min(orig.y + dy, d.h - orig.h))
  {
    EnsureMinSize(Rect(orig.x + dx, orig.y + dy, orig.w, orig.h), d)
  }

  /** A move that keeps the rectangle inside the display is an exact translation. */
  lemma MoveInside(orig: Rect, dx: int, dy: int, d: Display)
    requires ValidIn(orig, d)
    requires ValidIn(Rect(orig.x + dx, orig.y + dy, orig.w, orig.h), d)
    ensures MoveRect(orig, dx, dy, d) == Rect(orig.x + dx, orig.y + dy, orig.w, orig.h)
  {
  }

  // ---------------------------------------------------------------- free resize

  /** The handles whose names contain `left`, `right`, `top` or `bottom`:
      the substring tests of the free resize. */
  predicate NamesLeft(h: Handle) { h == TopLeft || h == BottomLeft || h == Left }
  predicate NamesRight(h: Handle) { h == TopRight || h == BottomRight || h == Right }
  predicate NamesTop(h: Handle) { h == TopLeft || h == TopRight || h == Top }
  predicate NamesBottom(h: Handle) { h == BottomLeft || h == BottomRight || h == Bottom }

  /** `_resize_free`: the edges the handle names follow the pointer, at least
      the minimum size from the opposite edge; the right and bottom edges start
      from `Right` and `Bottom`; every edge is clamped to the display. */
  function ResizeFree(orig: Rect, p: Point, h: Handle, d: Display): (r: Rect)
    ensures r.w >= MIN_CROP_SIZE && r.h >= MIN_CROP_SIZE
    ensures d.w >= 0 && d.h >= 0 ==> 0 <= r.x <= d.w && 0 <= r.y <= d.h
  {
    var l0, t0, r0, b0 := orig.x, orig.y, orig.Right(), orig.Bottom();
    var l1 := if NamesLeft(h) then Min(p.x, r0 - MIN_CROP_SIZE) else l0;
    var r1 := if NamesRight(h) then Max(p.x, l1 + MIN_CROP_SIZE) else r0;
    var t1 := if NamesTop(h) then Min(p.y, b0 - MIN_CROP_SIZE) else t0;
    var b1 := if NamesBottom(h) then Max(p.y, t1 + MIN_CROP_SIZE) else b0;
    var l2, r2 := Max(0, Min(l1, d.w)), Max(0, Min(r1, d.w));
    var t2, b2 := Max(0, Min(t1, d.h)), Max(0, Min(b1, d.h));
    Rect(l2, t2, Max(MIN_CROP_SIZE, r2 - l2), Max(MIN_CROP_SIZE, b2 - t2))
  }

  /** A free resize from a valid rectangle moves the left edge only for a
      handle named with `left` and the top edge only for one named with `top`. */
  lemma ResizeFreeKeepsUnnamedEdges(orig: Rect, p: Point, h: Handle, d: Display)
    requires ValidIn(orig, d)
    ensures !NamesLeft(h) ==> ResizeFree(orig, p, h, d).x == orig.x
    ensures !NamesTop(h) ==> ResizeFree(orig, p, h, d).y == orig.y
  {
  }

  /** An axis the handle does not name keeps its start but, because the end
      is read as `Right` (one pixel inside) and the width as the difference,
      comes out one pixel shorter than the original whenever that is still
      above the minimum. */
  lemma ResizeFreeUntouchedAxis(orig: Rect, p: Point, h: Handle, d: Display)
    requires ValidIn(orig, d) && orig.w > MIN_CROP_SIZE
    requires !NamesLeft(h) && !NamesRight(h)
    ensures ResizeFree(orig, p, h, d).x == orig.x
    ensures ResizeFree(orig, p, h, d).w == orig.w - 1
  {
  }

  /** From a valid rectangle and a pointer on the display, each edge the
      handle names goes to the pointer while that leaves the minimum size to
      the opposite edge, which stays where it was; otherwise the dragged edge
      stops at the minimum size from it. */
  lemma ResizeFreeFollowsPointer(orig: Rect, p: Point, h: Handle, d: Display)
    requires ValidIn(orig, d) && InDisplay(p, d)
    ensures var r := ResizeFree(orig, p, h, d);
            (NamesRight(h) && p.x >= orig.x + MIN_CROP_SIZE ==> r.x == orig.x && r.x + r.w == p.x) &&
            (NamesRight(h) && p.x < orig.x + MIN_CROP_SIZE ==> r.x == orig.x && r.w == MIN_CROP_SIZE) &&
            (NamesLeft(h) && p.x <= orig.Right() - MIN_CROP_SIZE ==> r.x == p.x && r.x + r.w == orig.Right()) &&
            (NamesLeft(h) && p.x > orig.Right() - MIN_CROP_SIZE ==> r.x == Max(0, orig.Right() - MIN_CROP_SIZE)) &&
            (NamesBottom(h) && p.y >= orig.y + MIN_CROP_SIZE ==> r.y == orig.y && r.y + r.h == p.y) &&
            (NamesBottom(h) && p.y < orig.y + MIN_CROP_SIZE ==> r.y == orig.y && r.h == MIN_CROP_SIZE) &&
            (NamesTop(h) && p.y <= orig.Bottom() - MIN_CROP_SIZE ==> r.y == p.y && r.y + r.h == orig.Bottom()) &&
            (NamesTop(h) && p.y > orig.Bottom() - MIN_CROP_SIZE ==> r.y == Max(0, orig.Bottom() - MIN_CROP_SIZE))
  {
  }

  // ---------------------------------------------------------------- ratio-locked resize

  /** The size `_rect_from_horizontal_anchor` lays out from a width: the
      width (between the minimum and the display) with its height share, or,
      when that share is taller than the display, the display's height with
      its width share. */
  function HorizontalSize(width: int, ratio: real, d: Display): (s: (int, int))
    requires ratio != 0.0
    ensures s.0 >= MIN_CROP_SIZE && (d.h >= MIN_CROP_SIZE ==> MIN_CROP_SIZE <= s.1 <= d.h)
  {
    var w1 := Max(MIN_CROP_SIZE, Min(width, d.w));
    var h1 := Max(MIN_CROP_SIZE, RoundOver(w1, ratio));
    if h1 > d.h then (Max(MIN_CROP_SIZE, RoundTimes(d.h, ratio)), d.h) else (w1, h1)
  }

  /** `_rect_from_horizontal_anchor`: a width grown from a fixed vertical
      edge, the height following the ratio, centred on the original's middle
      row (and the width recomputed if the height had to be cut). */
  function FromHorizontalAnchor(ax: int, width: int, origin: Rect, toLeft: bool, ratio: real, d: Display): (r: Rect)
    requires ratio != 0.0
    ensures d.h >= MIN_CROP_SIZE ==> 0 <= r.y && r.y + r.h <= d.h && r.h >= MIN_CROP_SIZE
    ensures toLeft ==> r.x >= 0 && r.x + r.w == Min(ax, d.w)
    ensures !toLeft ==> r.x + r.w == Min(d.w, Max(0, ax) + r.w)
    ensures r.h == HorizontalSize(width, ratio, d).1
    ensures !toLeft || r.x > 0 ==> r.w == HorizontalSize(width, ratio, d).0
  {
    var (w2, h2) := HorizontalSize(width, ratio, d);
    var cy := origin.y as real + origin.h as real / 2.0;
    var top0 := Round(cy - h2 as real / 2.0);
    var top := Max(0, Min(top0, d.h - h2));
    var bottom := top + h2;
    if toLeft then
      var right := Min(ax, d.w);
      var left := Max(0, right - w2);
      Rect(left, top, right - left, bottom - top)
    else
      var left0 := Max(0, ax);
      var right := Min(d.w, left0 + w2);
      var left := right - w2;
      Rect(left, top, right - left, bottom - top)
  }

  /** The size `_rect_from_vertical_anchor` lays out from a height: the
      height with its width share, or, when that share is wider than the
      display, the display's width with its height share. */
  function VerticalSize(height: int, ratio: real, d: Display): (s: (int, int))
    requires ratio != 0.0
    ensures s.1 >= MIN_CROP_SIZE && (d.w >= MIN_CROP_SIZE ==> MIN_CROP_SIZE <= s.0 <= d.w)
  {
    var h1 := Max(MIN_CROP_SIZE, Min(height, d.h));
    var w1 := Max(MIN_CROP_SIZE, RoundTimes(h1, ratio));
    if w1 > d.w then (d.w, Max(MIN_CROP_SIZE, RoundOver(d.w, ratio))) else (w1, h1)
  }

  /** `_rect_from_vertical_anchor`: the same with the axes exchanged. */
  function FromVerticalAnchor(ay: int, height: int, origin: Rect, toTop: bool, ratio: real, d: Display): (r: Rect)
    requires ratio != 0.0
    ensures d.w >= MIN_CROP_SIZE ==> 0 <= r.x && r.x + r.w <= d.w && r.w >= MIN_CROP_SIZE
    ensures toTop ==> r.y >= 0 && r.y + r.h == Min(ay, d.h)
    ensures !toTop ==> r.y + r.h == Min(d.h, Max(0, ay) + r.h)
    ensures r.w == VerticalSize(height, ratio, d).0
    ensures !toTop || r.y > 0 ==> r.h == VerticalSize(height, ratio, d).1
  {
    var (w2, h2) := VerticalSize(height, ratio, d);
    var cx := origin.x as real + origin.w as real / 2.0;
    var left0 := Round(cx - w2 as real / 2.0);
    var left := Max(0, Min(left0, d.w - w2));
    var right := left + w2;
    if toTop then
      var bottom := Min(ay, d.h);
      var top := Max(0, bottom - h2);
      Rect(left, top, right - left, bottom - top)
    else
      var top0 := Max(0, ay);
      var bottom := Min(d.h, top0 + h2);
      var top := bottom - h2;
      Rect(left, top, right - left, bottom - top)
  }

  /** The fixed corner, and the directions in which width and height grow,
      for a corner handle; any other name behaves like `bottom_right`. */
  function CornerAnchor(h: Handle, origin: Rect): (a: (Point, int, int))
    ensures a.1 in {-1, 1} && a.2 in {-1, 1}
  {
    match h
    case TopLeft => (Point(origin.Right(), origin.Bottom()), -1, -1)
    case TopRight => (Point(origin.x, origin.Bottom()), 1, -1)
    case BottomLeft => (Point(origin.Right(), origin.y), -1, 1)
    case _ => (Point(origin.x, origin.y), 1, 1)
  }

  /** The drag's extents from the fixed corner of a corner handle, each
      between the minimum and the display's side. */
  function CornerExtents(p: Point, h: Handle, origin: Rect, d: Display): (e: (int, int))
    ensures e.0 >= MIN_CROP_SIZE && e.1 >= MIN_CROP_SIZE
    ensures d.w >= MIN_CROP_SIZE ==> e.0 <= d.w
    ensures d.h >= MIN_CROP_SIZE ==> e.1 <= d.h
  {
    var (anchor, hs, vs) := CornerAnchor(h, origin);
    (Max(MIN_CROP_SIZE, Min(Abs((p.x - anchor.x) * hs), d.w)),
     Max(MIN_CROP_SIZE, Min(Abs((p.y - anchor.y) * vs), d.h)))
  }

  /** The size a corner drag keeps from its extents `dx` and `dy`: the width
      with its height share, or, when that share is taller than `dy`, the
      height `dy` with its width share. */
  function CornerSize(dx: int, dy: int, ratio: real): (s: (int, int))
    requires ratio != 0.0
    ensures s.1 <= dy && (s.0 == dx || s.1 == dy)
    ensures s.0 == RoundTimes(s.1, ratio) || s.1 == RoundOver(s.0, ratio)
  {
    var h1 := RoundOver(dx, ratio);
    if h1 > dy then (RoundTimes(dy, ratio), dy) else (dx, h1)
  }

  /** `_resize_corner_with_ratio`: the drag's extents from the fixed corner
      (between the minimum and the display), shortened on one axis to follow
      the ratio, raised to the minimum, then laid out from the corner in the
      handle's directions. Both extents are at least the minimum before the
      ratio step, so the zero-extent corrections that follow in the script
      never apply. */
  function ResizeCorner(p: Point, h: Handle, origin: Rect, ratio: real, d: Display): (r: Rect)
    requires ratio != 0.0
    ensures r == EnsureWithin(r, d)
    ensures d.w > 0 && d.h > 0 ==>
              var e := CornerExtents(p, h, origin, d);
              var s := CornerSize(e.0, e.1, ratio);
              r.w == Max(MIN_CROP_SIZE, Min(Max(MIN_CROP_SIZE, s.0), d.w)) &&
              r.h == Max(MIN_CROP_SIZE, Min(Max(MIN_CROP_SIZE, s.1), d.h))
  {
    var (anchor, hs, vs) := CornerAnchor(h, origin);
    var (dx, dy) := CornerExtents(p, h, origin, d);
    var (w2, h2) := CornerSize(dx, dy, ratio);
    var height, width := Max(MIN_CROP_SIZE, h2), Max(MIN_CROP_SIZE, w2);
    var left, right := if hs < 0 then anchor.x - width else anchor.x, if hs < 0 then anchor.x else anchor.x + width;
    var top, bottom := if vs < 0 then anchor.y - height else anchor.y, if vs < 0 then anchor.y else anchor.y + height;
    var r := EnsureMinSize(Rect(left, top, right - left, bottom - top), d);
    EnsureWithinIdempotent(Rect(left, top, right - left, bottom - top), d);
    r
  }

  /** `_resize_with_ratio`: a side handle pivots on the opposite side, a
      corner handle on the opposite corner; the pivot's result is normalised. */
  function ResizeWithRatio(orig: Rect, p: Point, h: Handle, ratio: real, d: Display): (r: Rect)
    requires ratio != 0.0
    ensures Roomy(d) ==> ValidIn(r, d)
  {
    EnsureMinSize(RatioPivot(orig, p, h, ratio, d), d)
  }

  /** The rectangle the pivot of `_resize_with_ratio` builds for handle `h`:
      the left and top handles keep the opposite edge, cut to the display. */
  function RatioPivot(orig: Rect, p: Point, h: Handle, ratio: real, d: Display): (r: Rect)
    requires ratio != 0.0
    ensures h == Left ==> r.x + r.w == Min(orig.Right(), d.w)
    ensures h == Top ==> r.y + r.h == Min(orig.Bottom(), d.h)
  {
    match h
    case Left =>
      var ax := orig.Right();
      FromHorizontalAnchor(ax, Max(MIN_CROP_SIZE, Min(ax - p.x, ax)), orig, true, ratio, d)
    case Right =>
      var ax := orig.x;
      FromHorizontalAnchor(ax, Max(MIN_CROP_SIZE, Min(p.x - ax, d.w - ax)), orig, false, ratio, d)
    case Top =>
      var ay := orig.Bottom();
      FromVerticalAnchor(ay, Max(MIN_CROP_SIZE, Min(ay - p.y, ay)), orig, true, ratio, d)
    case Bottom =>
      var ay := orig.y;
      FromVerticalAnchor(ay, Max(MIN_CROP_SIZE, Min(p.y - ay, d.h - ay)), orig, false, ratio, d)
    case _ => ResizeCorner(p, h, orig, ratio, d)
  }

  /** `_update_selection_resize` once the original rectangle and the handle
      are known: the locked path under an active ratio, the free path
      otherwise, then the normaliser. */
  function ResizeSelection(orig: Rect, p: Point, h: Handle, ratio: Option<real>, d: Display): (r: Rect)
    ensures Roomy(d) ==> ValidIn(r, d)
    ensures !RatioActive(ratio) ==> r == EnsureWithin(ResizeFree(orig, p, h, d), d)
  {
    var rect := if RatioActive(ratio) then ResizeWithRatio(orig, p, h, ratio.value, d) else ResizeFree(orig, p, h, d);
    EnsureMinSize(rect, d)
  }

  /** A free resize from a valid rectangle, with the pointer on the display,
      is `ResizeFree` itself, untouched by the normaliser, so its edges follow
      the pointer as `ResizeFreeFollowsPointer` states; it keeps the start
      edges of the axes the handle does not name. */
  lemma ResizeSelectionFree(orig: Rect, p: Point, h: Handle, ratio: Option<real>, d: Display)
    requires !RatioActive(ratio) && ValidIn(orig, d) && InDisplay(p, d)
    ensures var r := ResizeSelection(orig, p, h, ratio, d);
            r == ResizeFree(orig, p, h, d) &&
            r.w >= MIN_CROP_SIZE && r.h >= MIN_CROP_SIZE &&
            (!NamesLeft(h) ==> r.x == orig.x) && (!NamesTop(h) ==> r.y == orig.y)
  {
    var f := ResizeFree(orig, p, h, d);
    ResizeFreeKeepsUnnamedEdges(orig, p, h, d);
    ResizeFreeFits(orig, p, h, d);
  }

  /** From a valid rectangle and a pointer on the display, the free resize
      already fits the display, so the normaliser keeps it. */
  lemma ResizeFreeFits(orig: Rect, p: Point, h: Handle, d: Display)
    requires ValidIn(orig, d) && InDisplay(p, d)
    ensures ValidIn(ResizeFree(orig, p, h, d), d)
  {
  }

  // ---------------------------------------------------------------- following the lock ratio

  /** A rectangle clear of every edge of the display and above the minimum
      size on both sides: one that no clamp of the normaliser has touched. */
  predicate Unclamped(r: Rect, d: Display) {
    r.w > MIN_CROP_SIZE && r.h > MIN_CROP_SIZE && r.x > 0 && r.y > 0 && r.x + r.w < d.w && r.y + r.h < d.h
  }

  /** A normalised rectangle that is unclamped has the size and lies past
      the start edges of the rectangle it was made from. */
  lemma UnclampedKeepsSize(q: Rect, d: Display)
    requires Unclamped(EnsureWithin(q, d), d)
    ensures var r := EnsureWithin(q, d);
            r.w == q.w && r.h == q.h && q.x > 0 && q.y > 0
  {
  }

  /** The extents kept from a drag follow the ratio up to the rounding of
      one side, are never negative, and from a drag with two non-zero
      extents never exceed them. */
  lemma RatioExtentsFollow(adx: int, ady: int, ratio: real)
    requires ratio > 0.0 && adx >= 0 && ady >= 0
    ensures var e := RatioExtents(adx, ady, ratio);
            FitFollowsRatio(e, ratio) && e.0 >= 0 && e.1 >= 0 &&
            (adx > 0 && ady > 0 ==> e.0 <= adx && e.1 <= ady)
  {
    ShareFollows(RatioExtents(adx, ady, ratio), ratio);
    var ady1 := if ady == 0 then RoundOver(adx, ratio) else ady;
    SharesNonNegative(adx, ratio);
    var adx1 := if adx == 0 then RoundTimes(ady1, ratio) else adx;
    SharesNonNegative(ady1, ratio);
    SharesNonNegative(adx1, ratio);
    if adx > 0 && ady > 0 {
      RatioExtentsWithin(adx, ady, ratio);
    }
  }

  /** From a drag with two non-zero extents, the kept extents never exceed
      the drag's. */
  lemma RatioExtentsWithin(adx: int, ady: int, ratio: real)
    requires ratio > 0.0 && adx > 0 && ady > 0
    ensures RatioExtents(adx, ady, ratio).0 <= adx && RatioExtents(adx, ady, ratio).1 <= ady
  {
    if adx as real / ady as real > ratio {
      CutWidthWithin(adx, ady, ratio);
    } else {
      CutHeightWithin(adx, ady, ratio);
    }
  }

  /** A size one of whose sides is the other's share follows the ratio up to
      the rounding of that side. */
  lemma ShareFollows(s: (int, int), ratio: real)
    requires ratio > 0.0 && (s.0 == RoundTimes(s.1, ratio) || s.1 == RoundOver(s.0, ratio))
    ensures FitFollowsRatio(s, ratio)
  {
    if s.0 == RoundTimes(s.1, ratio) {
      RoundFollows(s.1, ratio);
    } else {
      ScaledRounding(s.0, s.1, ratio);
    }
  }

  /** Both shares of a non-negative extent are non-negative. */
  lemma SharesNonNegative(n: int, ratio: real)
    requires ratio > 0.0 && n >= 0
    ensures RoundTimes(n, ratio) >= 0 && RoundOver(n, ratio) >= 0
  {
    MulLe(0.0, n as real, ratio);
    QuotientAtLeast(n as real, ratio);
  }

  /** A positive `k` keeps a non-negative `a / k` non-negative. */
  lemma QuotientAtLeast(a: real, k: real)
    requires k > 0.0 && a >= 0.0
    ensures a / k >= 0.0
  {
    DivMul(a, k);
  }

  /** A drag wider than the ratio has its width cut to the height's share,
      which is no wider than the drag. */
  lemma CutWidthWithin(adx: int, ady: int, ratio: real)
    requires ratio > 0.0 && adx > 0 && ady > 0 && adx as real / ady as real > ratio
    ensures RoundTimes(ady, ratio) <= adx
  {
    DivMul(adx as real, ady as real);
    MulLt(ratio, adx as real / ady as real, ady as real);
  }

  /** A drag no wider than the ratio has its height cut to the width's share,
      which is no taller than the drag. */
  lemma CutHeightWithin(adx: int, ady: int, ratio: real)
    requires ratio > 0.0 && adx > 0 && ady > 0 && adx as real / ady as real <= ratio
    ensures RoundOver(adx, ratio) <= ady
  {
    DivMul(adx as real, ady as real);
    MulLe(adx as real / ady as real, ratio, ady as real);
    QuotientAtMost(adx as real, ady as real, ratio);
  }

  /** `a <= b * k` gives `a / k <= b` for a positive `k`. */
  lemma QuotientAtMost(a: real, b: real, k: real)
    requires k > 0.0 && a <= b * k
    ensures a / k <= b
  {
    DivMul(a, k);
    assert (b - a / k) * k == b * k - a;
  }

  /** A ratio-locked creation whose result no clamp touched follows the
      ratio up to the rounding of one side. */
  lemma CreateRectFollows(anchor: Point, current: Point, ratio: Option<real>, d: Display)
    requires RatioActive(ratio) && ratio.value > 0.0
    ensures var r := CreateRect(anchor, current, ratio, d);
            Unclamped(r, d) ==> FitFollowsRatio((r.w, r.h), ratio.value)
  {
    var a, c := ClampPoint(anchor, d), ClampPoint(current, d);
    var r := CreateRect(anchor, current, ratio, d);
    assert r == EnsureWithin(CreateWithRatio(a, c, ratio.value, d), d);
    if Unclamped(r, d) && (a.x != c.x || a.y != c.y) {
      var e := RatioExtents(Abs(c.x - a.x), Abs(c.y - a.y), ratio.value);
      RatioExtentsFollow(Abs(c.x - a.x), Abs(c.y - a.y), ratio.value);
      CreateWithRatioKeepsExtents(a, c, ratio.value, d);
      assert (r.w, r.h) == e;
    }
  }

  /** Normalising the ratio step of a creation from two distinct points
      changes nothing, and leaves the kept extents as they are unless a clamp
      touched them. */
  lemma CreateWithRatioKeepsExtents(a: Point, c: Point, ratio: real, d: Display)
    requires ratio > 0.0 && (a.x != c.x || a.y != c.y)
    ensures var e := RatioExtents(Abs(c.x - a.x), Abs(c.y - a.y), ratio);
            var r := EnsureWithin(CreateWithRatio(a, c, ratio, d), d);
            r == CreateWithRatio(a, c, ratio, d) &&
            (Unclamped(r, d) && e.0 >= 0 && e.1 >= 0 ==> r.w == e.0 && r.h == e.1)
  {
    var e := RatioExtents(Abs(c.x - a.x), Abs(c.y - a.y), ratio);
    RatioStep(a, c, ratio, d);
    EnsureWithinIdempotent(Toward(a, c, e), d);
    if Unclamped(CreateWithRatio(a, c, ratio, d), d) && e.0 >= 0 && e.1 >= 0 {
      UnclampedKeepsSize(Toward(a, c, e), d);
    }
  }

  /** A side pivot on a vertical edge follows the ratio unless the height
      sits at the minimum or fills the display, or the width was cut at the
      left edge of the display. */
  lemma HorizontalAnchorFollows(ax: int, width: int, origin: Rect, toLeft: bool, ratio: real, d: Display)
    requires ratio > 0.0
    ensures var q := FromHorizontalAnchor(ax, width, origin, toLeft, ratio, d);
            MIN_CROP_SIZE < q.h < d.h && (toLeft ==> q.x > 0) ==> FitFollowsRatio((q.w, q.h), ratio)
  {
    var w1 := Max(MIN_CROP_SIZE, Min(width, d.w));
    ShareFollows((w1, RoundOver(w1, ratio)), ratio);
  }

  /** A side pivot on a horizontal edge follows the ratio unless the width
      sits at the minimum or fills the display, or the height was cut at the
      top edge of the display. */
  lemma VerticalAnchorFollows(ay: int, height: int, origin: Rect, toTop: bool, ratio: real, d: Display)
    requires ratio > 0.0
    ensures var q := FromVerticalAnchor(ay, height, origin, toTop, ratio, d);
            MIN_CROP_SIZE < q.w < d.w && (toTop ==> q.y > 0) ==> FitFollowsRatio((q.w, q.h), ratio)
  {
    var h1 := Max(MIN_CROP_SIZE, Min(height, d.h));
    ShareFollows((RoundTimes(h1, ratio), h1), ratio);
  }

  /** A corner resize whose sides are above the minimum and below the
      display follows the ratio up to the rounding of one side. */
  lemma CornerFollows(p: Point, h: Handle, origin: Rect, ratio: real, d: Display)
    requires ratio > 0.0
    ensures var q := ResizeCorner(p, h, origin, ratio, d);
            MIN_CROP_SIZE < q.w < d.w && MIN_CROP_SIZE < q.h < d.h ==> FitFollowsRatio((q.w, q.h), ratio)
  {
    var e := CornerExtents(p, h, origin, d);
    ShareFollows(CornerSize(e.0, e.1, ratio), ratio);
  }

  /** A ratio-locked resize whose result no clamp touched follows the ratio
      up to the rounding of one side, whichever handle was dragged. */
  lemma ResizeWithRatioFollows(orig: Rect, p: Point, h: Handle, ratio: real, d: Display)
    requires ratio > 0.0
    ensures var r := ResizeWithRatio(orig, p, h, ratio, d);
            Unclamped(r, d) ==> FitFollowsRatio((r.w, r.h), ratio)
  {
    var q := RatioPivot(orig, p, h, ratio, d);
    if Unclamped(EnsureWithin(q, d), d) {
      UnclampedKeepsSize(q, d);
      PivotFollows(orig, p, h, ratio, d);
    }
  }

  /** The pivot's rectangle follows the ratio when its sides are above the
      minimum and below the display and it lies past the start edges. */
  lemma PivotFollows(orig: Rect, p: Point, h: Handle, ratio: real, d: Display)
    requires ratio > 0.0
    ensures var q := RatioPivot(orig, p, h, ratio, d);
            MIN_CROP_SIZE < q.w < d.w && MIN_CROP_SIZE < q.h < d.h && q.x > 0 && q.y > 0 ==>
            FitFollowsRatio((q.w, q.h), ratio)
  {
    match h
    case Left => LeftPivotFollows(orig, p, ratio, d);
    case Right => RightPivotFollows(orig, p, ratio, d);
    case Top => TopPivotFollows(orig, p, ratio, d);
    case Bottom => BottomPivotFollows(orig, p, ratio, d);
    case _ => CornerFollows(p, h, orig, ratio, d);
  }

  /** The left handle's pivot, on the right edge. */
  lemma LeftPivotFollows(orig: Rect, p: Point, ratio: real, d: Display)
    requires ratio > 0.0
    ensures var q := RatioPivot(orig, p, Left, ratio, d);
            MIN_CROP_SIZE < q.w < d.w && MIN_CROP_SIZE < q.h < d.h && q.x > 0 && q.y > 0 ==>
            FitFollowsRatio((q.w, q.h), ratio)
  {
    HorizontalAnchorFollows(orig.Right(), Max(MIN_CROP_SIZE, Min(orig.Right() - p.x, orig.Right())), orig, true, ratio, d);
  }

  /** The right handle's pivot, on the left edge. */
  lemma RightPivotFollows(orig: Rect, p: Point, ratio: real, d: Display)
    requires ratio > 0.0
    ensures var q := RatioPivot(orig, p, Right, ratio, d);
            MIN_CROP_SIZE < q.w < d.w && MIN_CROP_SIZE < q.h < d.h && q.x > 0 && q.y > 0 ==>
            FitFollowsRatio((q.w, q.h), ratio)
  {
    HorizontalAnchorFollows(orig.x, Max(MIN_CROP_SIZE, Min(p.x - orig.x, d.w - orig.x)), orig, false, ratio, d);
  }

  /** The top handle's pivot, on the bottom edge. */
  lemma TopPivotFollows(orig: Rect, p: Point, ratio: real, d: Display)
    requires ratio > 0.0
    ensures var q := RatioPivot(orig, p, Top, ratio, d);
            MIN_CROP_SIZE < q.w < d.w && MIN_CROP_SIZE < q.h < d.h && q.x > 0 && q.y > 0 ==>
            FitFollowsRatio((q.w, q.h), ratio)
  {
    VerticalAnchorFollows(orig.Bottom(), Max(MIN_CROP_SIZE, Min(orig.Bottom() - p.y, orig.Bottom())), orig, true, ratio, d);
  }

  /** The bottom handle's pivot, on the top edge. */
  lemma BottomPivotFollows(orig: Rect, p: Point, ratio: real, d: Display)
    requires ratio > 0.0
    ensures var q := RatioPivot(orig, p, Bottom, ratio, d);
            MIN_CROP_SIZE < q.w < d.w && MIN_CROP_SIZE < q.h < d.h && q.x > 0 && q.y > 0 ==>
            FitFollowsRatio((q.w, q.h), ratio)
  {
    VerticalAnchorFollows(orig.y, Max(MIN_CROP_SIZE, Min(p.y - orig.y, d.h - orig.y)), orig, false, ratio, d);
  }

  /** Near the minimum size the minimum overrides the ratio: under 16:9 a
      corner dragged to (5, 10) from the origin gives a 5 by 4 rectangle, whose
      height is the minimum instead of the share `round(5 / (16/9)) = 3`. */
  lemma MinimumOverridesRatio()
    ensures ResizeCorner(Point(5, 10), BottomRight, Rect(0, 0, 10, 10), 16.0 / 9.0, Display(800, 600)) == Rect(0, 0, 5, 4)
    ensures !FitFollowsRatio((5, 4), 16.0 / 9.0)
  {
    var ratio := 16.0 / 9.0;
    assert 5 as real / ratio == 2.8125;
    assert RoundOver(5, ratio) == 3;
    assert CornerExtents(Point(5, 10), BottomRight, Rect(0, 0, 10, 10), Display(800, 600)) == (5, 10);
    assert CornerSize(5, 10, ratio) == (5, 3);
  }

  // ---------------------------------------------------------------- applying a lock ratio

  /** The height `ApplyAspectRatioToSelection` starts from: the width's
      share under the ratio if that fits the display height, the old height
      otherwise, and the minimum if that is not positive. */
  function LockedHeight(r: Rect, ratio: real, d: Display): (h: int)
    requires ratio != 0.0
    ensures h >= 1
  {
    var desired := RoundOver(r.w, ratio);
    var h1 := if desired <= d.h then desired else r.h;
    if h1 <= 0 then MIN_CROP_SIZE else h1
  }

  /** The width that follows a height under the ratio, then cut to the
      display width (recomputing the height) and to the display height
      (recomputing the width). */
  function FitToDisplay(h: int, ratio: real, d: Display): (s: (int, int))
    requires ratio != 0.0
  {
    FitCut(h, RoundTimes(h, ratio), RoundOver(d.w, ratio), RoundTimes(d.h, ratio), d)
  }

  /** The cuts of `FitToDisplay` given the three rounded shares it may use:
      `w2` for the height `h`, `hw` for the display width and `wh` for the
      display height. */
  function FitCut(h: int, w2: int, hw: int, wh: int, d: Display): (s: (int, int))
    ensures w2 > d.w && hw > d.h ==> s == (wh, d.h)
    ensures w2 > d.w && hw <= d.h ==> s == (d.w, hw)
    ensures w2 <= d.w && h > d.h ==> s == (wh, d.h)
    ensures w2 <= d.w && h <= d.h ==> s == (w2, h)
  {
    var w3 := if w2 > d.w then d.w else w2;
    var h3 := if w2 > d.w then hw else h;
    if h3 > d.h then (wh, d.h) else (w3, h3)
  }

  /** A size that follows the ratio up to the rounding of one side: the width
      within half a pixel of the height's share, or, when the width was cut,
      the height within half a pixel of the width's share. */
  predicate FitFollowsRatio(s: (int, int), ratio: real) {
    AbsReal(s.0 as real - s.1 as real * ratio) <= 0.5 ||
    AbsReal(s.0 as real - s.1 as real * ratio) <= 0.5 * ratio
  }

  /** Under a positive ratio the fitted size is no larger than the display. */
  lemma FitToDisplayFits(h: int, ratio: real, d: Display)
    requires ratio > 0.0
    ensures FitToDisplay(h, ratio, d).0 <= d.w && FitToDisplay(h, ratio, d).1 <= d.h
  {
    var w2, hw, wh := RoundTimes(h, ratio), RoundOver(d.w, ratio), RoundTimes(d.h, ratio);
    if w2 > d.w && hw > d.h {
      DivBound(d.w, d.h, hw, ratio);
    }
    if w2 <= d.w && h > d.h {
      ScaledRoundMonotone(d.h, h, ratio);
    }
    FitCutFits(h, w2, hw, wh, d);
  }

  lemma FitCutFits(h: int, w2: int, hw: int, wh: int, d: Display)
    requires w2 > d.w && hw > d.h ==> wh <= d.w
    requires w2 <= d.w && h > d.h ==> wh <= w2
    ensures FitCut(h, w2, hw, wh, d).0 <= d.w && FitCut(h, w2, hw, wh, d).1 <= d.h
  {
  }

  /** Under a positive ratio the fitted size follows the ratio. */
  lemma FitToDisplayFollows(h: int, ratio: real, d: Display)
    requires ratio > 0.0
    ensures FitFollowsRatio(FitToDisplay(h, ratio, d), ratio)
  {
    var w2, hw, wh := RoundTimes(h, ratio), RoundOver(d.w, ratio), RoundTimes(d.h, ratio);
    assert FitFollowsRatio((wh, d.h), ratio) by { RoundFollows(d.h, ratio); }
    assert FitFollowsRatio((w2, h), ratio) by { RoundFollows(h, ratio); }
    assert FitFollowsRatio((d.w, hw), ratio) by { ScaledRounding(d.w, hw, ratio); }
    FitCutFollows(h, w2, hw, wh, d, ratio);
  }

  lemma FitCutFollows(h: int, w2: int, hw: int, wh: int, d: Display, ratio: real)
    requires FitFollowsRatio((wh, d.h), ratio) && FitFollowsRatio((w2, h), ratio) && FitFollowsRatio((d.w, hw), ratio)
    ensures FitFollowsRatio(FitCut(h, w2, hw, wh, d), ratio)
  {
  }

  lemma RoundFollows(n: int, ratio: real)
    ensures FitFollowsRatio((RoundTimes(n, ratio), n), ratio)
  {
  }

  lemma ScaledRoundMonotone(m: int, n: int, ratio: real)
    requires m <= n && ratio >= 0.0
    ensures RoundTimes(m, ratio) <= RoundTimes(n, ratio)
  {
    RoundTimesMonotone(m, n, ratio);
  }

  /** A height cut to `h` below the share `Round(w / ratio)` gives back a
      width no larger than `w`. */
  lemma DivBound(w: int, h: int, h3: int, ratio: real)
    requires ratio > 0.0 && h3 == RoundOver(w, ratio) && h3 > h
    ensures RoundTimes(h, ratio) <= w
  {
    var q := w as real / ratio;
    assert h as real + 0.5 <= q;
    MulLe(h as real + 0.5, q, ratio);
    DivMul(w as real, ratio);
    assert h as real * ratio + 0.5 * ratio <= w as real;
  }

  lemma ScaledRounding(w: int, h: int, ratio: real)
    requires ratio > 0.0 && h == RoundOver(w, ratio)
    ensures AbsReal(w as real - h as real * ratio) <= 0.5 * ratio
  {
    var q := w as real / ratio;
    MulWithin(h as real - q, ratio);
    DivMul(w as real, ratio);
    assert (h as real - q) * ratio == h as real * ratio - w as real;
  }

  /** The size `ApplyAspectRatioToSelection` gives the selection, raised to the minimum. */
  function AspectSize(r: Rect, ratio: real, d: Display): (s: (int, int))
    requires ratio != 0.0
    ensures s.0 >= MIN_CROP_SIZE && s.1 >= MIN_CROP_SIZE
  {
    RaiseToMin(FitToDisplay(LockedHeight(r, ratio, d), ratio, d))
  }

  function RaiseToMin(s: (int, int)): (t: (int, int))
    ensures t.0 >= MIN_CROP_SIZE && t.1 >= MIN_CROP_SIZE
    ensures s.0 >= MIN_CROP_SIZE ==> t.0 == s.0
    ensures s.1 >= MIN_CROP_SIZE ==> t.1 == s.1
  {
    (Max(MIN_CROP_SIZE, s.0), Max(MIN_CROP_SIZE, s.1))
  }

  /** Under a positive ratio on a roomy display the size fits the display and,
      unless a side was raised to the minimum, follows the ratio up to rounding. */
  lemma AspectSizeFollowsRatio(r: Rect, ratio: real, d: Display)
    requires ratio > 0.0 && Roomy(d)
    ensures var s := AspectSize(r, ratio, d);
            s.0 <= d.w && s.1 <= d.h &&
            (s.0 > MIN_CROP_SIZE && s.1 > MIN_CROP_SIZE ==> FitFollowsRatio(s, ratio))
  {
    var h := LockedHeight(r, ratio, d);
    var fit := FitToDisplay(h, ratio, d);
    FitToDisplayFits(h, ratio, d);
    FitToDisplayFollows(h, ratio, d);
    RaisedFollows(fit, ratio, d);
  }

  lemma RaisedFollows(fit: (int, int), ratio: real, d: Display)
    requires fit.0 <= d.w && fit.1 <= d.h && FitFollowsRatio(fit, ratio) && Roomy(d)
    ensures var s := RaiseToMin(fit);
            s.0 <= d.w && s.1 <= d.h &&
            (s.0 > MIN_CROP_SIZE && s.1 > MIN_CROP_SIZE ==> FitFollowsRatio(s, ratio))
  {
  }

  /** `ApplyAspectRatioToSelection` after its guards: the selection resized to
      `AspectSize` about its centre, then normalised. */
  function ApplyAspect(r: Rect, ratio: real, d: Display): (o: Rect)
    requires ratio != 0.0
    ensures Roomy(d) ==> ValidIn(o, d)
  {
    Recentre(r, AspectSize(r, ratio, d), d)
  }

  /** A rectangle of size `s` about the centre of `r`, normalised. */
  function Recentre(r: Rect, s: (int, int), d: Display): (o: Rect)
    ensures Roomy(d) ==> ValidIn(o, d)
  {
    EnsureMinSize(Centred(r, s), d)
  }

  /** The rectangle of size `s` whose start is `round(centre - s / 2)` on each axis. */
  function Centred(r: Rect, s: (int, int)): (b: Rect)
  {
    var cx := r.x as real + r.w as real / 2.0;
    var cy := r.y as real + r.h as real / 2.0;
    Rect(Round(cx - s.0 as real / 2.0), Round(cy - s.1 as real / 2.0), s.0, s.1)
  }

  /** Under a positive ratio on a roomy display the selection takes exactly `AspectSize`. */
  lemma ApplyAspectSize(r: Rect, ratio: real, d: Display)
    requires ratio > 0.0 && Roomy(d)
    ensures var o := ApplyAspect(r, ratio, d);
            (o.w, o.h) == AspectSize(r, ratio, d)
  {
    AspectSizeFollowsRatio(r, ratio, d);
  }

  /** When the recentred rectangle already fits, the normaliser leaves it
      alone and its centre is within half a pixel of the old centre on each axis. */
  lemma RecentreKeepsCentre(r: Rect, s: (int, int), d: Display)
    requires ValidIn(Centred(r, s), d)
    ensures var o := Recentre(r, s, d);
            o.w == s.0 && o.h == s.1 &&
            AbsReal(o.x as real + o.w as real / 2.0 - (r.x as real + r.w as real / 2.0)) <= 0.5 &&
            AbsReal(o.y as real + o.h as real / 2.0 - (r.y as real + r.h as real / 2.0)) <= 0.5
  {
    RecentredWithin(r.x as real + r.w as real / 2.0, s.0);
    RecentredWithin(r.y as real + r.h as real / 2.0, s.1);
    NormalisedFits(Centred(r, s), d);
  }

  /** The normaliser leaves a rectangle that already fits as it is. */
  lemma NormalisedFits(b: Rect, d: Display)
    requires ValidIn(b, d)
    ensures EnsureMinSize(b, d) == b
  {
  }

  /** The start `round(c - len / 2)` leaves the centre within half a pixel of `c`. */
  lemma RecentredWithin(c: real, len: int)
    ensures AbsReal(Round(c - len as real / 2.0) as real + len as real / 2.0 - c) <= 0.5
  {
  }

  /** A 200 by 200 selection at the origin of an 800 by 600 display, locked to
      16:9, becomes 199 by 112 at (0, 44). */
  lemma ApplyAspectExample(r: Rect, ratio: real, d: Display)
    requires r == Rect(0, 0, 200, 200) && ratio == 16.0 / 9.0 && d == Display(800, 600)
    ensures ApplyAspect(r, ratio, d) == Rect(0, 44, 199, 112)
  {
    assert Round(200.0 / ratio) == 112;
    assert Round(112.0 * ratio) == 199;
    assert AspectSize(r, ratio, d) == (199, 112);
    assert Round(100.0 - 199.0 / 2.0) == 0;
    assert Round(100.0 - 112.0 / 2.0) == 44;
  }

  // ---------------------------------------------------------------- rescale, clip, initial rectangle

  /** The new start of a span when its centre and its length are both
      scaled by `s`, rounded: the rounded scaled start. */
  function ScaledStart(start: int, len: int, s: real): (r: int)
    ensures r == RoundTimes(start, s)
  {
    var c := (start as real + len as real / 2.0) * s;
    var x := c - len as real * s / 2.0;
    assert x == start as real * s;
    Round(x)
  }

  /** `RescaleCropRect` after its guards: size and centre scaled by the
      change of display size per axis, rounded, normalised. */
  function Rescale(r: Rect, prev: Display, d: Display): (o: Rect)
    requires prev.w != 0 && prev.h != 0
    ensures Roomy(d) ==> ValidIn(o, d)
  {
    ScaleBy(r, d.w as real / prev.w as real, d.h as real / prev.h as real, d)
  }

  /** The selection scaled by `sx` and `sy` about the origin, rounded, normalised. */
  function ScaleBy(r: Rect, sx: real, sy: real, d: Display): (o: Rect)
    ensures Roomy(d) ==> ValidIn(o, d)
  {
    EnsureMinSize(Rect(ScaledStart(r.x, r.w, sx), ScaledStart(r.y, r.h, sy),
                       RoundTimes(r.w, sx), RoundTimes(r.h, sy)), d)
  }

  /** Whole scale factors need no rounding: a selection that fits once scaled
      is scaled exactly. */
  lemma ScaleByWhole(r: Rect, m: int, n: int, d: Display)
    requires ValidIn(Rect(r.x * m, r.y * n, r.w * m, r.h * n), d)
    ensures ScaleBy(r, m as real, n as real, d) == Rect(r.x * m, r.y * n, r.w * m, r.h * n)
  {
    RoundTimesBy(r.x, m as real, m);
    RoundTimesBy(r.y, n as real, n);
    RoundTimesBy(r.w, m as real, m);
    RoundTimesBy(r.h, n as real, n);
  }

  /** An unchanged display keeps a valid selection. */
  lemma RescaleSameDisplay(r: Rect, d: Display)
    requires d.w != 0 && d.h != 0 && ValidIn(r, d)
    ensures Rescale(r, d, d) == r
  {
    WholeQuotient(d.w, d.w, 1);
    WholeQuotient(d.h, d.h, 1);
    ScaleByWhole(r, 1, 1, d);
  }

  /** Doubling the display doubles every coordinate of a selection that still fits. */
  lemma RescaleDoubles(r: Rect, prev: Display, d: Display)
    requires prev.w > 0 && prev.h > 0 && d == Display(2 * prev.w, 2 * prev.h)
    requires ValidIn(Rect(2 * r.x, 2 * r.y, 2 * r.w, 2 * r.h), d)
    ensures Rescale(r, prev, d) == Rect(2 * r.x, 2 * r.y, 2 * r.w, 2 * r.h)
  {
    WholeQuotient(d.w, prev.w, 2);
    WholeQuotient(d.h, prev.h, 2);
    ScaleByWhole(r, 2, 2, d);
  }

  lemma WholeQuotient(a: int, b: int, m: int)
    requires b != 0 && a == m * b
    ensures a as real / b as real == m as real
  {
  }

  /** `ClipRect`: integer fields rounded (which keeps them) and normalised. */
  function ClipRect(r: Rect, d: Display): (o: Rect)
    ensures o == EnsureWithin(r, d)
  {
    EnsureMinSize(Rect(Round(r.x as real), Round(r.y as real), Round(r.w as real), Round(r.h as real)), d)
  }

  /** The size `InitCropRect` starts from, given the parsed lock text: a
      quarter of the display width, square when the lock is off or the text
      is unusable; under the lock the side of the larger ratio term takes a
      quarter of its display side and the other side its share, truncated. A
      division by zero in the script falls back to the square like a parse
      error does. */
  function InitSizeOf(fixed: bool, p: Option<(real, real)>, d: Display): (s: (int, int))
    ensures !fixed || p.None? ==> s == (FloorDiv(d.w, 4), FloorDiv(d.w, 4))
  {
    var quarter := FloorDiv(d.w, 4);
    if !fixed || p.None? then (quarter, quarter)
    else
      var (wr, hr) := p.value;
      if wr < hr then
        if hr == 0.0 then (quarter, quarter)
        else
          var rh := FloorDiv(d.h, 4);
          (TruncShare(rh, wr / hr), rh)
      else
        (quarter, if wr != 0.0 then TruncShare(quarter, hr / wr) else FloorDiv(d.h, 4))
  }

  /** `InitCropRect`'s size for the lock state and lock text. */
  function InitSize(fixed: bool, text: string, d: Display): (s: (int, int))
    ensures !fixed ==> s == (FloorDiv(d.w, 4), FloorDiv(d.w, 4))
  {
    InitSizeOf(fixed, if fixed then ParseRatio(text) else None, d)
  }

  /** With a positive ratio `W:H`, the side of the larger term is a quarter of
      its display side and the other side is its share under the ratio,
      rounded down. */
  lemma InitSizeFollowsRatio(wr: real, hr: real, d: Display)
    requires d.w >= 0 && d.h >= 0 && wr > 0.0 && hr > 0.0
    ensures var s := InitSizeOf(true, Some((wr, hr)), d);
            (wr < hr ==> s.1 == FloorDiv(d.h, 4) && IsShare(s.0, s.1, wr / hr)) &&
            (wr >= hr ==> s.0 == FloorDiv(d.w, 4) && IsShare(s.1, s.0, hr / wr))
  {
    var qw, qh := FloorDiv(d.w, 4), FloorDiv(d.h, 4);
    if wr < hr {
      ShareBound(qh, wr / hr);
    } else {
      ShareBound(qw, hr / wr);
    }
  }

  /** `int(n * k)`: the share of `n` under the factor `k`, truncated. */
  function TruncShare(n: int, k: real): (t: int)
  {
    Trunc(n as real * k)
  }

  /** `t` is the share of `n` under `k` rounded down: `t <= n * k < t + 1`. */
  predicate IsShare(t: int, n: int, k: real) {
    t as real <= n as real * k < t as real + 1.0
  }

  /** Truncation rounds a non-negative share down. */
  lemma ShareBound(n: int, k: real)
    requires n >= 0 && k > 0.0
    ensures IsShare(TruncShare(n, k), n, k)
  {
    assert 0.0 <= n as real * k;
  }

  /** `InitCropRect` up to the ratio step: the starting size centred on the
      display and normalised. */
  function InitRect(fixed: bool, text: string, d: Display): (r: Rect)
    ensures Roomy(d) ==> ValidIn(r, d)
  {
    var (rw, rh) := InitSize(fixed, text, d);
    var nx := d.w as real / 2.0 - rw as real / 2.0;
    var ny := d.h as real / 2.0 - rh as real / 2.0;
    EnsureMinSize(Rect(Round(nx), Round(ny), Round(rw as real), Round(rh as real)), d)
  }

  /** Under the default `1:1` lock the initial selection is the square of a
      quarter of the display width. */
  lemma InitSizeDefault(t: string, d: Display)
    requires t == "1:1"
    ensures InitSize(true, t, d) == (FloorDiv(d.w, 4), FloorDiv(d.w, 4))
  {
    DefaultRatioText(t);
    SquareShare(d);
  }

  lemma SquareShare(d: Display)
    ensures InitSizeOf(true, Some((1.0, 1.0)), d) == (FloorDiv(d.w, 4), FloorDiv(d.w, 4))
  {
    var q := FloorDiv(d.w, 4);
    assert 1.0 / 1.0 == 1.0;
    assert q as real * 1.0 == q as real;
    assert TruncShare(q, 1.0) == q;
  }

  // ---------------------------------------------------------------- hit tests

  /** The edge names `HitTestEdge` returns. */
  datatype Edge = EdgeTopLeft | EdgeTopRight | EdgeBottomLeft | EdgeBottomRight | EdgeLeft | EdgeRight | EdgeTop | EdgeBottom

  predicate Near(a: int, b: int) {
    Abs(a - b) < EDGE_THRESHOLD
  }

  /** `HitTestEdge`: corners first (top-left, top-right, bottom-left,
      bottom-right), then the sides (left, right, top, bottom), a side only
      when the point is within the rectangle's span along it. A corner is
      returned exactly when the point is near its two edges and not near an
      edge of a corner tested before it. */
  function HitTestEdge(mx: int, my: int, rx: int, ry: int, rw: int, rh: int): (e: Option<Edge>)
    ensures e == Some(EdgeTopLeft) <==> Near(mx, rx) && Near(my, ry)
    ensures e == Some(EdgeTopRight) <==> !Near(mx, rx) && Near(mx, rx + rw) && Near(my, ry)
    ensures e == Some(EdgeBottomLeft) <==> Near(mx, rx) && !Near(my, ry) && Near(my, ry + rh)
    ensures e == Some(EdgeBottomRight) <==>
              !Near(mx, rx) && Near(mx, rx + rw) && !Near(my, ry) && Near(my, ry + rh)
    ensures e == Some(EdgeTop) ==> Near(my, ry)
    ensures e == Some(EdgeBottom) ==> Near(my, ry + rh) && !Near(my, ry)
    ensures e.Some? && e.value in {EdgeLeft, EdgeRight} ==> ry <= my <= ry + rh && !Near(my, ry) && !Near(my, ry + rh)
    ensures e.Some? && e.value in {EdgeTop, EdgeBottom} ==> rx <= mx <= rx + rw && !Near(mx, rx) && !Near(mx, rx + rw)
    ensures e == Some(EdgeLeft) ==> Near(mx, rx)
    ensures e == Some(EdgeRight) ==> Near(mx, rx + rw) && !Near(mx, rx)
    ensures e == None <==>
              !((Near(mx, rx) || Near(mx, rx + rw)) && (Near(my, ry) || Near(my, ry + rh))) &&
              !((Near(mx, rx) || Near(mx, rx + rw)) && ry <= my <= ry + rh) &&
              !((Near(my, ry) || Near(my, ry + rh)) && rx <= mx <= rx + rw)
  {
    var nl, nr := Near(mx, rx), Near(mx, rx + rw);
    var nt, nb := Near(my, ry), Near(my, ry + rh);
    var ix, iy := rx <= mx <= rx + rw, ry <= my <= ry + rh;
    if nl && nt then Some(EdgeTopLeft)
    else if nr && nt then Some(EdgeTopRight)
    else if nl && nb then Some(EdgeBottomLeft)
    else if nr && nb then Some(EdgeBottomRight)
    else if nl && iy then Some(EdgeLeft)
    else if nr && iy then Some(EdgeRight)
    else if nt && ix then Some(EdgeTop)
    else if nb && ix then Some(EdgeBottom)
    else None
  }

  /** On a 100 by 100 rectangle at the origin: the top-right corner, the
      middle of the bottom edge, and a small rectangle where the top-left
      corner wins over the others it is also near. */
  lemma HitTestEdgeExamples()
    ensures HitTestEdge(100, 0, 0, 0, 100, 100) == Some(EdgeTopRight)
    ensures HitTestEdge(50, 100, 0, 0, 100, 100) == Some(EdgeBottom)
    ensures HitTestEdge(1, 1, 0, 0, 2, 2) == Some(EdgeTopLeft)
    ensures HitTestEdge(50, 50, 0, 0, 100, 100) == None
  {
  }

  /** The order in which `_iter_handle_rects_display` yields the handles. */
  const HANDLE_ORDER: seq<Handle> := [TopLeft, Top, TopRight, Right, BottomRight, Bottom, BottomLeft, Left]

  /** Where a handle sits on the selection: its corners and edge midpoints,
      with the right and bottom taken as `x + w` and `y + h`. */
  function HandlePoint(h: Handle, r: Rect): (real, real)
    requires h != Inside
  {
    var left, top := r.x as real, r.y as real;
    var right, bottom := (r.x + r.w) as real, (r.y + r.h) as real;
    var cx, cy := r.x as real + r.w as real / 2.0, r.y as real + r.h as real / 2.0;
    match h
    case TopLeft => (left, top)
    case Top => (cx, top)
    case TopRight => (right, top)
    case Right => (right, cy)
    case BottomRight => (right, bottom)
    case Bottom => (cx, bottom)
    case BottomLeft => (left, bottom)
    case Left => (left, cy)
  }

  /** Twice the handle point: whole numbers, since the midpoints are halves. */
  function DoubledPoint(h: Handle, r: Rect): (q: Point)
    requires h != Inside
    ensures q.x as real == 2.0 * HandlePoint(h, r).0 && q.y as real == 2.0 * HandlePoint(h, r).1
  {
    var left, top, right, bottom := 2 * r.x, 2 * r.y, 2 * (r.x + r.w), 2 * (r.y + r.h);
    var cx, cy := 2 * r.x + r.w, 2 * r.y + r.h;
    match h
    case TopLeft => Point(left, top)
    case Top => Point(cx, top)
    case TopRight => Point(right, top)
    case Right => Point(right, cy)
    case BottomRight => Point(right, bottom)
    case Bottom => Point(cx, bottom)
    case BottomLeft => Point(left, bottom)
    case Left => Point(left, cy)
  }

  /** The `HANDLE_SIZE` square centred on the rounded handle point, the
      rounding done on the doubled point by `HalfRound`. */
  function HandleRect(h: Handle, r: Rect): (s: Rect)
    requires h != Inside
    ensures s.w == HANDLE_SIZE && s.h == HANDLE_SIZE
  {
    var q := DoubledPoint(h, r);
    Rect(HalfRound(q.x) - HANDLE_SIZE / 2, HalfRound(q.y) - HANDLE_SIZE / 2, HANDLE_SIZE, HANDLE_SIZE)
  }

  /** The square's corner is the rounded handle point less half its size. */
  lemma HandleRectRounds(h: Handle, r: Rect)
    requires h != Inside
    ensures HandleRect(h, r).x == Round(HandlePoint(h, r).0) - HANDLE_SIZE / 2
    ensures HandleRect(h, r).y == Round(HandlePoint(h, r).1) - HANDLE_SIZE / 2
  {
    var q := DoubledPoint(h, r);
    HalfRoundIsRound(q.x);
    HalfRoundIsRound(q.y);
    assert q.x as real / 2.0 == HandlePoint(h, r).0;
    assert q.y as real / 2.0 == HandlePoint(h, r).1;
  }

  /** The position in `hs` of the first handle whose square contains `p`
      (half-open, as `wx.Rect.Contains`), or -1. */
  function FirstHit(r: Rect, p: Point, hs: seq<Handle>): (i: int)
    requires forall k :: 0 <= k < |hs| ==> hs[k] != Inside
    ensures -1 <= i < |hs|
    ensures i >= 0 ==> ContainsHalfOpen(HandleRect(hs[i], r), p)
    ensures forall k :: 0 <= k < |hs| && (i < 0 || k < i) ==> !ContainsHalfOpen(HandleRect(hs[k], r), p)
  {
    if hs == [] then -1
    else if ContainsHalfOpen(HandleRect(hs[0], r), p) then 0
    else
      var j := FirstHit(r, p, hs[1..]);
      if j < 0 then -1 else j + 1
  }

  /** `_hit_test_handle`: no handle without a selection, otherwise the first
      handle in `HANDLE_ORDER` whose square contains the point. */
  function HandleAt(crop: Option<Rect>, p: Point): (h: Option<Handle>)
    ensures crop.None? ==> h.None?
    ensures h.Some? ==> h.value in HANDLE_ORDER && ContainsHalfOpen(HandleRect(h.value, crop.value), p)
    ensures h.None? && crop.Some? ==> forall k :: 0 <= k < |HANDLE_ORDER| ==> !ContainsHalfOpen(HandleRect(HANDLE_ORDER[k], crop.value), p)
  {
    if crop.None? then None
    else
      var i := FirstHit(crop.value, p, HANDLE_ORDER);
      if i < 0 then None else Some(HANDLE_ORDER[i])
  }

  /** The selection's own top-left corner picks the top-left handle, whatever
      other handles overlap it. */
  lemma TopLeftCornerWins(r: Rect)
    ensures HandleAt(Some(r), Point(r.x, r.y)) == Some(TopLeft)
  {
    assert ContainsHalfOpen(HandleRect(TopLeft, r), Point(r.x, r.y));
  }
}
