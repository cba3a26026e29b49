/** The preview panel's selection state and its pointer state machine. The
    panel keeps the loaded image's size, the display geometry, the selection
    in display pixels, the drag mode with its handle, the selection at the
    start of the drag and the clamped point the drag started from. Each
    handler is a method of `PreviewPanel` whose new state is a function of
    the old one; the properties are lemmas about those functions.

    Each method and the transition that specifies it:
    - `UpdateDisplayGeometry`: `UpdateGeometry`
    - `RescaleCropRect`: `RescaleCrop`
    - `OnSize`: `Resized`
    - `ApplyAspectRatioToSelection`: `ApplyRatio`
    - `InitCropRect`: `InitCrop`
    - `SetImage`: `Loaded`
    - `OnLeftDown`: `Pressed`, and `Press`: `PressAt`
    - `UpdateSelectionCreation`: `CreateSelection`
    - `UpdateSelectionMove`: `MoveSelection`
    - `UpdateSelectionResize`: `ResizeStep`
    - `OnMouseMove`: `Dragged`
    - `OnLeftUp`: `Released`
    - `HitTestHandle`: `Geometry.HandleAt` */
module Preview {
  import opened Python
  import opened Geometry
  import opened Mapping

  /** The drag modes. */
  datatype Mode = Idle | Creating | Moving | Resizing

  /** The fields of the panel the handlers read and write. */
  datatype Panel = Panel(image: Option<ImageSize>, display: Display, ox: int, oy: int, oldDisplay: Display,
                         crop: Option<Rect>, mode: Mode, handle: Option<Handle>, original: Option<Rect>,
                         dragStart: Point, fixed: bool, aspect: string)

  /** The panel as constructed: no image, an empty display, no selection,
      idle, and the lock on at `1:1`. */
  const INITIAL: Panel := Panel(None, Display(0, 0), 0, 0, Display(0, 0), None, Idle, None, None, Point(0, 0), true, "1:1")

  function Ratio(s: Panel): Option<real> {
    AspectRatio(s.fixed, s.aspect)
  }

  /** `_rect_from_crop`: the stored selection as a rectangle of its rounded
      fields, which are already whole. */
  function RectFromCrop(c: Option<Rect>): (r: Option<Rect>)
    ensures r == c
  {
    if c.None? then None
    else Some(Rect(Round(c.value.x as real), Round(c.value.y as real), Round(c.value.w as real), Round(c.value.h as real)))
  }

  /** A drag-start rectangle that is present and not `(0, 0, 0, 0)`, which is
      how a `wx.Rect` tests true. */
  predicate RectTruthy(o: Option<Rect>) {
    o.Some? && o.value.Truthy()
  }

  /** The fields every handler that ends a drag resets. */
  function Settled(s: Panel): Panel {
    s.(mode := Idle, handle := None, original := None, dragStart := Point(0, 0))
  }

  // ---------------------------------------------------------------- geometry and selection upkeep

  /** `UpdateDisplayGeometry` with the panel's client size `pw` by `ph`. */
  function UpdateGeometry(s: Panel, pw: nat, ph: nat): Panel {
    if s.image.None? then s
    else
      var g := Fit(pw, ph, s.image.value);
      s.(display := g.display, ox := g.ox, oy := g.oy)
  }

  /** `RescaleCropRect`: nothing without a selection or when the previous
      display had a zero side; otherwise the selection scaled to the new display. */
  function RescaleCrop(s: Panel): Panel {
    if s.crop.None? || s.oldDisplay.w == 0 || s.oldDisplay.h == 0 then s
    else s.(crop := Some(Rescale(s.crop.value, s.oldDisplay, s.display)))
  }

  /** `OnSize`: the current display becomes the previous one, the geometry is
      recomputed, and a selection is rescaled. */
  function Resized(s: Panel, pw: nat, ph: nat): Panel {
    var s1 := UpdateGeometry(s.(oldDisplay := s.display), pw, ph);
    if s1.crop.Some? then RescaleCrop(s1) else s1
  }

  /** `ApplyAspectRatioToSelection`: with the lock on, a selection and an
      active ratio, the selection takes the ratio about its centre. */
  function ApplyRatio(s: Panel): Panel {
    if !s.fixed || s.crop.None? then s
    else
      var ratio := Ratio(s);
      if !RatioActive(ratio) then s
      else s.(crop := Some(ApplyAspect(s.crop.value, ratio.value, s.display)))
  }

  /** `InitCropRect`: the initial selection, the ratio applied, and the drag fields reset. */
  function InitCrop(s: Panel): Panel {
    Settled(ApplyRatio(s.(crop := Some(InitRect(s.fixed, s.aspect, s.display)))))
  }

  /** `SetImage`: the geometry for the new image, the previous selection
      clipped to it or a fresh initial one, and the drag fields reset. */
  function Loaded(s: Panel, img: ImageSize, pw: nat, ph: nat): Panel {
    var prev := s.crop;
    var s1 := UpdateGeometry(s.(image := Some(img)), pw, ph);
    var s2 := if prev.Some? then s1.(crop := Some(ClipRect(prev.value, s1.display))) else InitCrop(s1);
    Settled(s2)
  }

  // ---------------------------------------------------------------- the pointer

  /** `_event_to_display_point`. */
  function DisplayPoint(s: Panel, e: Point): Point {
    Point(e.x - s.ox, e.y - s.oy)
  }

  /** `OnLeftDown` at panel point `e`: a handle hit starts a resize, a press
      in the selection a move, a press on the display a new selection from a
      0 by 0 rectangle at the press, and anything else leaves the panel idle. */
  function Pressed(s: Panel, e: Point): Panel {
    if s.image.None? then s
    else
      var p := DisplayPoint(s, e);
      PressAt(s, p, HandleAt(s.crop, p))
  }

  /** The press at display point `p` once the handle test gave `h`. */
  function PressAt(s: Panel, p: Point, h: Option<Handle>): Panel {
      if h.Some? && s.crop.Some? then
        s.(mode := Resizing, handle := h, original := RectFromCrop(s.crop), dragStart := ClampPoint(p, s.display))
      else if s.crop.Some? && ContainsClosed(s.crop.value, p) then
        s.(mode := Moving, handle := Some(Inside), original := RectFromCrop(s.crop), dragStart := ClampPoint(p, s.display))
      else if InDisplay(p, s.display) then
        var a := ClampPoint(p, s.display);
        s.(mode := Creating, handle := None, dragStart := a, original := None, crop := Some(Rect(a.x, a.y, 0, 0)))
      else
        s.(mode := Idle, handle := None, original := None)
  }

  /** `_update_selection_creation`: the selection from `anchor` to `current`. */
  function CreateSelection(s: Panel, anchor: Point, current: Point): Panel {
    s.(crop := Some(CreateRect(anchor, current, Ratio(s), s.display)))
  }

  /** `_update_selection_move`. */
  function MoveSelection(s: Panel, dx: int, dy: int): Panel {
    if !RectTruthy(s.original) then s
    else s.(crop := Some(MoveRect(s.original.value, dx, dy, s.display)))
  }

  /** `_update_selection_resize`. */
  function ResizeStep(s: Panel, p: Point): Panel {
    if !RectTruthy(s.original) || s.handle.None? then s
    else s.(crop := Some(ResizeSelection(s.original.value, p, s.handle.value, Ratio(s), s.display)))
  }

  /** `OnMouseMove`: only a left-button drag outside the idle mode changes
      the selection, from the clamped pointer. */
  function Dragged(s: Panel, e: Point, dragging: bool, leftDown: bool): Panel {
    if s.image.None? || !(dragging && leftDown && s.mode != Idle) then s
    else
      var p := ClampPoint(DisplayPoint(s, e), s.display);
      if s.mode == Creating then CreateSelection(s, s.dragStart, p)
      else if s.mode == Moving && RectTruthy(s.original) then MoveSelection(s, p.x - s.dragStart.x, p.y - s.dragStart.y)
      else if s.mode == Resizing && RectTruthy(s.original) then ResizeStep(s, p)
      else s
  }

  /** `OnLeftUp`: the drag fields are reset, and a selection being created is normalised. */
  function Released(s: Panel): Panel {
    var s1 := Settled(s);
    if s.mode == Creating && s1.crop.Some? then s1.(crop := Some(EnsureMinSize(RectFromCrop(s1.crop).value, s1.display)))
    else s1
  }

  // ---------------------------------------------------------------- the panel object

  class PreviewPanel {
    var image: Option<ImageSize>
    var display: Display
    var ox: int
    var oy: int
    var oldDisplay: Display
    var crop: Option<Rect>
    var mode: Mode
    var handle: Option<Handle>
    var original: Option<Rect>
    var dragStart: Point
    var fixed: bool
    var aspect: string

    function State(): Panel
      reads this
    {
      Panel(image, display, ox, oy, oldDisplay, crop, mode, handle, original, dragStart, fixed, aspect)
    }

    constructor ()
      ensures State() == INITIAL
    {
      image, display, ox, oy, oldDisplay := None, Display(0, 0), 0, 0, Display(0, 0);
      crop, mode, handle, original, dragStart := None, Idle, None, None, Point(0, 0);
      fixed, aspect := true, "1:1";
    }

    /** `_hit_test_handle`: the handles are tried in `HANDLE_ORDER` and the
        first square containing the point is returned. */
    method HitTestHandle(p: Point) returns (h: Option<Handle>)
      ensures h == HandleAt(crop, p)
    {
      if crop.None? {
        return None;
      }
      var r := crop.value;
      ghost var first := FirstHit(r, p, HANDLE_ORDER);
      var i := 0;
      while i < |HANDLE_ORDER|
        invariant 0 <= i <= |HANDLE_ORDER|
        invariant forall k :: 0 <= k < i ==> !ContainsHalfOpen(HandleRect(HANDLE_ORDER[k], r), p)
        invariant first < 0 || i <= first
      {
        if ContainsHalfOpen(HandleRect(HANDLE_ORDER[i], r), p) {
          assert first == i;
          return Some(HANDLE_ORDER[i]);
        }
        i := i + 1;
      }
      return None;
    }

    method UpdateDisplayGeometry(pw: nat, ph: nat)
      modifies this
      ensures State() == UpdateGeometry(old(State()), pw, ph)
    {
      if image.None? {
        return;
      }
      var g := Fit(pw, ph, image.value);
      display, ox, oy := g.display, g.ox, g.oy;
    }

    method RescaleCropRect()
      modifies this
      ensures State() == RescaleCrop(old(State()))
    {
      if crop.None? || oldDisplay.w == 0 || oldDisplay.h == 0 {
        return;
      }
      crop := Some(Rescale(crop.value, oldDisplay, display));
    }

    method OnSize(pw: nat, ph: nat)
      modifies this
      ensures State() == Resized(old(State()), pw, ph)
    {
      oldDisplay := display;
      UpdateDisplayGeometry(pw, ph);
      if crop.Some? {
        RescaleCropRect();
      }
    }

    method ApplyAspectRatioToSelection()
      modifies this
      ensures State() == ApplyRatio(old(State()))
    {
      if !fixed || crop.None? {
        return;
      }
      var ratio := AspectRatio(fixed, aspect);
      if !RatioActive(ratio) {
        return;
      }
      crop := Some(ApplyAspect(crop.value, ratio.value, display));
    }

    method InitCropRect()
      modifies this
      ensures State() == InitCrop(old(State()))
    {
      ghost var s0 := State();
      crop := Some(InitRect(fixed, aspect, display));
      ghost var s1 := State();
      assert s1 == s0.(crop := Some(InitRect(s0.fixed, s0.aspect, s0.display)));
      ApplyAspectRatioToSelection();
      assert State() == ApplyRatio(s1);
      mode, handle, original, dragStart := Idle, None, None, Point(0, 0);
    }

    method SetImage(img: ImageSize, pw: nat, ph: nat)
      modifies this
      ensures State() == Loaded(old(State()), img, pw, ph)
    {
      ghost var s0 := State();
      var prev := crop;
      image := Some(img);
      UpdateDisplayGeometry(pw, ph);
      ghost var s1 := State();
      assert s1 == UpdateGeometry(s0.(image := Some(img)), pw, ph);
      if prev.Some? {
        crop := Some(ClipRect(prev.value, display));
        assert State() == s1.(crop := Some(ClipRect(prev.value, s1.display)));
      } else {
        InitCropRect();
        assert State() == InitCrop(s1);
      }
      mode, handle, original, dragStart := Idle, None, None, Point(0, 0);
    }

    method OnLeftDown(e: Point)
      modifies this
      ensures State() == Pressed(old(State()), e)
    {
      if image.None? {
        return;
      }
      ghost var s0 := State();
      var p := Point(e.x - ox, e.y - oy);
      assert p == DisplayPoint(s0, e);
      var h := HitTestHandle(p);
      Press(p, h);
      assert State() == PressAt(s0, p, h);
    }

    /** The body of `OnLeftDown` once the handle test gave `h`. */
    method Press(p: Point, h: Option<Handle>)
      modifies this
      ensures State() == PressAt(old(State()), p, h)
    {
      if h.Some? && crop.Some? {
        mode, handle, original, dragStart := Resizing, h, RectFromCrop(crop), ClampPoint(p, display);
      } else if crop.Some? && ContainsClosed(crop.value, p) {
        mode, handle, original, dragStart := Moving, Some(Inside), RectFromCrop(crop), ClampPoint(p, display);
      } else if InDisplay(p, display) {
        var a := ClampPoint(p, display);
        mode, handle, dragStart, original := Creating, None, a, None;
        crop := Some(Rect(a.x, a.y, 0, 0));
      } else {
        mode, handle, original := Idle, None, None;
      }
    }

    method UpdateSelectionCreation(anchor: Point, current: Point)
      modifies this
      ensures State() == CreateSelection(old(State()), anchor, current)
    {
      crop := Some(CreateRect(anchor, current, AspectRatio(fixed, aspect), display));
    }

    method UpdateSelectionMove(dx: int, dy: int)
      modifies this
      ensures State() == MoveSelection(old(State()), dx, dy)
    {
      if !RectTruthy(original) {
        return;
      }
      crop := Some(MoveRect(original.value, dx, dy, display));
    }

    method UpdateSelectionResize(p: Point)
      modifies this
      ensures State() == ResizeStep(old(State()), p)
    {
      if !RectTruthy(original) || handle.None? {
        return;
      }
      crop := Some(ResizeSelection(original.value, p, handle.value, AspectRatio(fixed, aspect), display));
    }

    method OnMouseMove(e: Point, dragging: bool, leftDown: bool)
      modifies this
      ensures State() == Dragged(old(State()), e, dragging, leftDown)
    {
      if image.None? {
        return;
      }
      if dragging && leftDown && mode != Idle {
        ghost var s0 := State();
        var p := ClampPoint(Point(e.x - ox, e.y - oy), display);
        assert p == ClampPoint(DisplayPoint(s0, e), s0.display);
        if mode == Creating {
          UpdateSelectionCreation(dragStart, p);
          assert State() == CreateSelection(s0, s0.dragStart, p);
        } else if mode == Moving && RectTruthy(original) {
          UpdateSelectionMove(p.x - dragStart.x, p.y - dragStart.y);
          assert State() == MoveSelection(s0, p.x - s0.dragStart.x, p.y - s0.dragStart.y);
        } else if mode == Resizing && RectTruthy(original) {
          UpdateSelectionResize(p);
          assert State() == ResizeStep(s0, p);
        }
      }
    }

    method OnLeftUp()
      modifies this
      ensures State() == Released(old(State()))
    {
      ghost var s0 := State();
      var previous := mode;
      mode, handle, original, dragStart := Idle, None, None, Point(0, 0);
      assert State() == Settled(s0);
      if previous == Creating && crop.Some? {
        crop := Some(EnsureMinSize(RectFromCrop(crop).value, display));
        assert State() == Settled(s0).(crop := Some(EnsureMinSize(RectFromCrop(s0.crop).value, s0.display)));
      }
    }
  }

  // ---------------------------------------------------------------- properties of the state machine

  /** The drag fields agree with the mode: a resize holds a resize handle and
      its start rectangle, a move holds `inside` and its start rectangle, and
      the other modes hold neither. */
  predicate Consistent(s: Panel) {
    match s.mode
    case Resizing => s.handle.Some? && s.handle.value != Inside && s.original.Some?
    case Moving => s.handle == Some(Inside) && s.original.Some?
    case _ => s.handle.None? && s.original.None?
  }

  /** Outside a creation on a roomy display, a selection lies inside the
      display and is at least the minimum size. */
  predicate Fits(s: Panel) {
    s.mode != Creating && s.crop.Some? && Roomy(s.display) ==> ValidIn(s.crop.value, s.display)
  }

  lemma InitialConsistent()
    ensures Consistent(INITIAL) && Fits(INITIAL)
  {
  }

  /** A press with an image is classified in priority order: a handle of the
      selection, then the closed selection, then the display, then nothing. */
  lemma PressedClassifies(s: Panel, e: Point)
    requires s.image.Some?
    ensures var r := Pressed(s, e);
            var p := DisplayPoint(s, e);
            var h := HandleAt(s.crop, p);
            var inside := s.crop.Some? && ContainsClosed(s.crop.value, p);
            (h.Some? ==>
               s.crop.Some? &&
               r == s.(mode := Resizing, handle := h, original := s.crop, dragStart := ClampPoint(p, s.display))) &&
            (h.None? && inside ==>
               r == s.(mode := Moving, handle := Some(Inside), original := s.crop, dragStart := ClampPoint(p, s.display))) &&
            (h.None? && !inside && InDisplay(p, s.display) ==>
               r == s.(mode := Creating, handle := None, original := None, dragStart := p, crop := Some(Rect(p.x, p.y, 0, 0)))) &&
            (h.None? && !inside && !InDisplay(p, s.display) ==>
               r == s.(mode := Idle, handle := None, original := None))
  {
    var p := DisplayPoint(s, e);
    assert HandleAt(s.crop, p).Some? ==> s.crop.Some?;
  }

  /** Without an image a press, a move and the display sizes do nothing. */
  lemma NoImageNoEffect(s: Panel, e: Point, dragging: bool, leftDown: bool, pw: nat, ph: nat)
    requires s.image.None?
    ensures Pressed(s, e) == s && Dragged(s, e, dragging, leftDown) == s
    ensures UpdateGeometry(s, pw, ph) == s
  {
  }

  /** A release always ends the drag; a selection being created is normalised
      and the others are kept. */
  lemma ReleasedSettles(s: Panel)
    ensures var r := Released(s);
            r.mode == Idle && r.handle.None? && r.original.None? && r.dragStart == Point(0, 0) &&
            (s.mode == Creating && s.crop.Some? ==> r.crop == Some(EnsureWithin(s.crop.value, s.display))) &&
            (s.mode != Creating || s.crop.None? ==> r.crop == s.crop) &&
            r.image == s.image && r.display == s.display
  {
  }

  /** A pointer move changes the selection and nothing else. */
  lemma DraggedOnlySelection(s: Panel, e: Point, dragging: bool, leftDown: bool)
    ensures Dragged(s, e, dragging, leftDown) == s.(crop := Dragged(s, e, dragging, leftDown).crop)
    ensures !dragging || !leftDown || s.mode == Idle ==> Dragged(s, e, dragging, leftDown) == s
  {
  }

  /** A press keeps the drag fields in agreement with the mode: a handle hit
      never yields `inside`. */
  lemma PressedConsistent(s: Panel, e: Point)
    requires Consistent(s)
    ensures Consistent(Pressed(s, e))
  {
    var h := HandleAt(s.crop, DisplayPoint(s, e));
    assert h.Some? ==> h.value in HANDLE_ORDER;
  }

  /** A drag step and a release keep the drag fields in agreement with the mode. */
  lemma PointerConsistent(s: Panel, e: Point, dragging: bool, leftDown: bool)
    requires Consistent(s)
    ensures Consistent(Dragged(s, e, dragging, leftDown)) && Consistent(Released(s))
  {
    DraggedOnlySelection(s, e, dragging, leftDown);
  }

  /** The upkeep of the selection leaves the drag fields as they were, or
      resets them all. */
  lemma UpkeepConsistent(s: Panel, img: ImageSize, pw: nat, ph: nat)
    requires Consistent(s)
    ensures Consistent(Loaded(s, img, pw, ph)) && Consistent(InitCrop(s))
    ensures Consistent(Resized(s, pw, ph)) && Consistent(ApplyRatio(s))
  {
    ResizedKeepsDrag(s, pw, ph);
  }

  /** A resize of the panel changes the geometry and the selection only. */
  lemma ResizedKeepsDrag(s: Panel, pw: nat, ph: nat)
    ensures var r := Resized(s, pw, ph);
            r.mode == s.mode && r.handle == s.handle && r.original == s.original && r.dragStart == s.dragStart &&
            r.image == s.image && r.oldDisplay == s.display
  {
    var s1 := UpdateGeometry(s.(oldDisplay := s.display), pw, ph);
    assert s1.mode == s.mode && s1.handle == s.handle && s1.original == s.original && s1.dragStart == s.dragStart;
    assert s1.image == s.image && s1.oldDisplay == s.display;
    var s2 := RescaleCrop(s1);
    assert s2 == s1.(crop := s2.crop);
  }

  /** A press from a settled panel keeps a settled selection fitting. */
  lemma PressedFits(s: Panel, e: Point)
    requires Fits(s) && s.mode != Creating
    ensures Fits(Pressed(s, e))
  {
  }

  /** A drag step keeps a settled selection inside a roomy display. */
  lemma DraggedFits(s: Panel, e: Point, dragging: bool, leftDown: bool)
    requires Fits(s)
    ensures Fits(Dragged(s, e, dragging, leftDown))
  {
    DraggedOnlySelection(s, e, dragging, leftDown);
  }

  /** A release leaves a selection inside a roomy display, whatever the mode
      before it. */
  lemma ReleasedFits(s: Panel)
    requires Fits(s)
    ensures Fits(Released(s))
  {
  }

  /** A new image leaves the selection inside a roomy display, whatever the state before. */
  lemma LoadedFits(s: Panel, img: ImageSize, pw: nat, ph: nat)
    ensures Fits(Loaded(s, img, pw, ph))
  {
  }

  /** The lock ratio keeps a fitting selection fitting, and the initial
      selection fits whatever the state before. */
  lemma UpkeepFits(s: Panel)
    ensures Fits(s) ==> Fits(ApplyRatio(s))
    ensures Fits(InitCrop(s))
  {
  }

  /** A resize of the panel keeps a settled selection inside the new display,
      provided the old display had no zero side. */
  lemma ResizedFits(s: Panel, pw: nat, ph: nat)
    requires Fits(s) && s.display.w != 0 && s.display.h != 0
    ensures Fits(Resized(s, pw, ph))
  {
  }

  /** The previous display with a zero side is not rescaled from: a selection
      made for it is kept as it was, whatever the new display. */
  lemma ResizedFromEmptyDisplay(s: Panel, pw: nat, ph: nat)
    requires s.display.w == 0 || s.display.h == 0
    ensures Resized(s, pw, ph).crop == s.crop
  {
  }

  /** A new image keeps the previous selection, clipped to the new display,
      and builds the initial one only when there was none. */
  lemma LoadedKeepsSelection(s: Panel, img: ImageSize, pw: nat, ph: nat)
    ensures var g := Fit(pw, ph, img);
            var r := Loaded(s, img, pw, ph);
            r.image == Some(img) && r.display == g.display && r.mode == Idle &&
            (s.crop.Some? ==> r.crop == Some(EnsureWithin(s.crop.value, g.display))) &&
            (s.crop.None? ==> r.crop.Some?)
  {
  }

  /** A press on the display away from the selection and its handles (or
      with no selection), a drag and a release
      select the normalised rectangle from the press to the clamped pointer. */
  lemma CreateByDrag(s: Panel, e1: Point, e2: Point)
    requires s.image.Some? && InDisplay(DisplayPoint(s, e1), s.display) && Roomy(s.display)
    requires HandleAt(s.crop, DisplayPoint(s, e1)).None?
    requires !(s.crop.Some? && ContainsClosed(s.crop.value, DisplayPoint(s, e1)))
    ensures var r := Released(Dragged(Pressed(s, e1), e2, true, true));
            var a := DisplayPoint(s, e1);
            r.mode == Idle &&
            r.crop == Some(CreateRect(a, ClampPoint(DisplayPoint(s, e2), s.display), Ratio(s), s.display))
  {
    var a := DisplayPoint(s, e1);
    var s1 := Pressed(s, e1);
    PressedCreates(s, e1);
    var c := CreateRect(a, ClampPoint(DisplayPoint(s, e2), s.display), Ratio(s), s.display);
    CreatingDrag(s1, e2);
    var s2 := Dragged(s1, e2, true, true);
    assert s1.dragStart == a && s1.display == s.display && Ratio(s1) == Ratio(s);
    assert DisplayPoint(s1, e2) == DisplayPoint(s, e2);
    assert s2.mode == Creating && s2.crop == Some(c) && s2.display == s.display;
    ReleasedFitting(s2);
  }

  /** A press on the display away from the selection and its handles (or
      with no selection) starts a new one at the press. */
  lemma PressedCreates(s: Panel, e: Point)
    requires s.image.Some? && InDisplay(DisplayPoint(s, e), s.display)
    requires HandleAt(s.crop, DisplayPoint(s, e)).None?
    requires !(s.crop.Some? && ContainsClosed(s.crop.value, DisplayPoint(s, e)))
    ensures var p := DisplayPoint(s, e);
            Pressed(s, e) == s.(mode := Creating, handle := None, original := None, dragStart := p, crop := Some(Rect(p.x, p.y, 0, 0)))
  {
  }

  /** Releasing a fitting selection being created keeps it. */
  lemma ReleasedFitting(s: Panel)
    requires s.mode == Creating && s.crop.Some? && ValidIn(s.crop.value, s.display)
    ensures Released(s).mode == Idle && Released(s).crop == s.crop
  {
    ReleasedSettles(s);
  }

  /** While creating, a drag step replaces the selection by the one from the
      drag start to the clamped pointer. */
  lemma CreatingDrag(s: Panel, e: Point)
    requires s.image.Some? && s.mode == Creating
    ensures Dragged(s, e, true, true) ==
            s.(crop := Some(CreateRect(s.dragStart, ClampPoint(DisplayPoint(s, e), s.display), Ratio(s), s.display)))
  {
  }

  /** A press inside a fitting selection but on no handle, then a drag, moves
      the selection by the pointer's travel from the press to the clamped
      pointer, clamped to the display, without changing its size. */
  lemma MoveByDrag(s: Panel, e1: Point, e2: Point)
    requires s.image.Some? && s.crop.Some? && Roomy(s.display) && ValidIn(s.crop.value, s.display)
    requires HandleAt(s.crop, DisplayPoint(s, e1)).None? && ContainsClosed(s.crop.value, DisplayPoint(s, e1))
    ensures var r := Dragged(Pressed(s, e1), e2, true, true);
            var a := DisplayPoint(s, e1);
            var q := ClampPoint(DisplayPoint(s, e2), s.display);
            r.mode == Moving && r.crop == Some(MoveRect(s.crop.value, q.x - a.x, q.y - a.y, s.display)) &&
            r.crop.value.w == s.crop.value.w && r.crop.value.h == s.crop.value.h
  {
    var s1 := Pressed(s, e1);
    PressedClassifies(s, e1);
    assert s1.original == s.crop && RectTruthy(s1.original);
    assert s1.dragStart == DisplayPoint(s, e1);
  }
}
