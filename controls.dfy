/** The control panel's part in the selection: the four coordinate fields
    (source pixels, start and end corner), the lock checkbox and the lock text.
    Entering a coordinate validates the four fields, applies the locked-edit
    rules against the box the panel currently shows, brings the box back to
    the display with `round` and normalises it. Toggling the lock copies the
    checkbox and the text into the panel and refits the selection.

    Each method of `ControlPanel` and what specifies it:
    - `OnAspectToggle`: `AspectToggled` for the preview, then `Shows`
    - `OnCoordEnter`: `CoordEnter` for the lock and the selection, then `Shows`
    - `UpdateControls`: `Shows` of the preview's `Mapping.CropBox` */
module Controls {
  import opened Python
  import opened Text
  import opened Geometry
  import opened Mapping
  import opened Preview

  /** The coordinate fields. */
  datatype Field = XS | YS | XE | YE

  /** What `GetValidatedBox` finds: a field that is not an integer, an end
      not beyond its start, or the box. */
  datatype Validated = NotInteger | NotOrdered | Valid(xs: int, ys: int, xe: int, ye: int)

  /** `GetValidatedBox` on the texts of the four fields. */
  function ValidatedBox(xs: string, ys: string, xe: string, ye: string): (v: Validated)
    ensures v == NotInteger <==>
              ParseInt(xs).None? || ParseInt(ys).None? || ParseInt(xe).None? || ParseInt(ye).None?
    ensures v.Valid? <==>
              ParseInt(xs).Some? && ParseInt(ys).Some? && ParseInt(xe).Some? && ParseInt(ye).Some? &&
              ParseInt(xe).value > ParseInt(xs).value && ParseInt(ye).value > ParseInt(ys).value
    ensures v.Valid? ==> v == Valid(ParseInt(xs).value, ParseInt(ys).value, ParseInt(xe).value, ParseInt(ye).value)
  {
    match (ParseInt(xs), ParseInt(ys), ParseInt(xe), ParseInt(ye))
    case (Some(a), Some(b), Some(c), Some(d)) =>
      if c <= a || d <= b then NotOrdered else Valid(a, b, c, d)
    case _ => NotInteger
  }

  /** A box in source coordinates; the locked-edit rules can make its ends fractional. */
  datatype Corners = Corners(xs: real, ys: real, xe: real, ye: real)

  /** The locked-edit rules for the edited field `key`, given the entered box
      `b`, the box shown before `o` and the lock terms `wr:hr`: a start edit
      translates the box by the start's change, keeping the shown size along
      that axis; an end edit recomputes the other end from the ratio. `None`
      is a division by zero. */
  function LockedEdit(key: Field, b: Corners, o: Corners, wr: real, hr: real): (c: Option<Corners>)
    ensures c.None? <==> (key == XE && wr == 0.0) || (key == YE && hr == 0.0)
  {
    match key
    case XS => Some(b.(xe := o.xe + (b.xs - o.xs)))
    case YS => Some(b.(ye := o.ye + (b.ys - o.ys)))
    case XE => if wr == 0.0 then None else Some(b.(ye := b.ys + (b.xe - b.xs) * (hr / wr)))
    case YE => if hr == 0.0 then None else Some(b.(xe := b.xs + (b.ye - b.ys) * (wr / hr)))
  }

  /** Whether the box's proportion drifts more than 0.01 from `wr / hr`;
      `None` is a division by zero. */
  function Drift(c: Corners, wr: real, hr: real): (d: Option<bool>)
    ensures d.None? <==> c.ye - c.ys == 0.0 || hr == 0.0
  {
    if c.ye - c.ys == 0.0 || hr == 0.0 then None
    else Some(AbsReal((c.xe - c.xs) / (c.ye - c.ys) - wr / hr) > 0.01)
  }

  /** The box after the lock rules, the checkbox after them, and whether they raised. */
  datatype LockStep = LockStep(box: Corners, locked: bool, raised: bool)

  /** The lock part of `OnCoordEnter`: nothing when the checkbox is clear;
      otherwise the lock text must split into two numbers, the edit rules
      apply, and the checkbox is cleared exactly when the edited box's
      proportion drifts more than 0.01 from the lock ratio. A raise leaves
      the checkbox on. */
  function ApplyLock(key: Field, b: Corners, o: Corners, locked: bool, text: string): (s: LockStep)
    ensures !locked ==> s == LockStep(b, false, false)
    ensures s.locked ==> locked
  {
    if !locked then LockStep(b, locked, false)
    else
      match ParseRatio(text)
      case None => LockStep(b, locked, true)
      case Some((wr, hr)) => RatioLock(key, b, o, wr, hr)
  }

  /** The lock rules once the lock text gave `wr:hr`, with the checkbox on:
      a division by zero raises and keeps the checkbox, otherwise the edited
      box, with the checkbox cleared when it drifts. */
  function RatioLock(key: Field, b: Corners, o: Corners, wr: real, hr: real): (s: LockStep)
    ensures s.raised ==> s.locked
    ensures s.raised <==> LockedEdit(key, b, o, wr, hr).None? || Drift(LockedEdit(key, b, o, wr, hr).value, wr, hr).None?
    ensures !s.raised ==>
              LockedEdit(key, b, o, wr, hr) == Some(s.box) && hr != 0.0 && s.box.ye - s.box.ys != 0.0 &&
              (s.locked <==> AbsReal((s.box.xe - s.box.xs) / (s.box.ye - s.box.ys) - wr / hr) <= 0.01)
  {
    match LockedEdit(key, b, o, wr, hr)
    case None => LockStep(b, true, true)
    case Some(c) =>
      match Drift(c, wr, hr)
      case None => LockStep(c, true, true)
      case Some(drifts) => LockStep(c, !drifts, false)
  }

  /** Under the lock and a lock text that parses, the lock part is the
      lock rules for the parsed ratio. */
  lemma LockedStep(key: Field, b: Corners, o: Corners, text: string, wr: real, hr: real)
    requires ParseRatio(text) == Some((wr, hr))
    ensures ApplyLock(key, b, o, true, text) == RatioLock(key, b, o, wr, hr)
  {
  }

  /** Under the lock, a lock text that does not parse raises, with the
      checkbox left on. */
  lemma UnparsedLockRaises(key: Field, b: Corners, o: Corners, text: string)
    requires ParseRatio(text).None?
    ensures ApplyLock(key, b, o, true, text) == LockStep(b, true, true)
  {
  }

  /** The entered box brought back to the display: each corner times
      display size over image size, rounded. */
  function ShownRect(c: Corners, d: Display, img: ImageSize): (r: Rect)
  {
    var dxs, dys := ToDisplay(c.xs, d.w, img.w), ToDisplay(c.ys, d.h, img.h);
    var dxe, dye := ToDisplay(c.xe, d.w, img.w), ToDisplay(c.ye, d.h, img.h);
    Rect(dxs, dys, dxe - dxs, dye - dys)
  }

  /** What an entry leaves: the checkbox, the panel's selection, and whether
      an exception ended the handler. */
  datatype Entry = Entry(locked: bool, crop: Option<Rect>, raised: bool)

  /** `OnCoordEnter` for the edited field `key`, the four field texts, the
      checkbox and the lock text, on panel state `p`. An invalid box changes
      nothing. A box shown on a display with a zero side, a lock text that
      does not parse, a division by zero in the lock rules, or a missing image
      raise and leave the selection as it was, though a cleared checkbox stays
      cleared. Otherwise the selection becomes the normalised displayed box. */
  function CoordEnter(key: Field, xs: string, ys: string, xe: string, ye: string,
                      locked: bool, text: string, p: Panel): (r: Entry)
    ensures !ValidatedBox(xs, ys, xe, ye).Valid? ==> r == Entry(locked, p.crop, false)
    ensures r.raised ==> r.crop == p.crop
    ensures r.locked ==> locked
    ensures !r.raised && ValidatedBox(xs, ys, xe, ye).Valid? ==> r.crop.Some? && p.image.Some?
    ensures r.crop != p.crop && Roomy(p.display) ==> r.crop.Some? && ValidIn(r.crop.value, p.display)
  {
    var v := ValidatedBox(xs, ys, xe, ye);
    if !v.Valid? then Entry(locked, p.crop, false)
    else
      var b := Corners(v.xs as real, v.ys as real, v.xe as real, v.ye as real);
      var shown := CropBox(p.crop, p.image, p.display);
      if shown == DivideByZero then Entry(locked, p.crop, true)
      else
        var s := ApplyLock(key, b, ShownBefore(b, p), locked, text);
        if s.raised || p.image.None? then Entry(s.locked, p.crop, true)
        else Entry(s.locked, Some(EnsureMinSize(ShownRect(s.box, p.display, p.image.value), p.display)), false)
  }

  // ---------------------------------------------------------------- properties of the lock rules

  /** A start edit under the lock translates the box: the size along the
      edited axis is the size shown before, and the other axis is as entered. */
  lemma StartEditTranslates(key: Field, b: Corners, o: Corners, wr: real, hr: real)
    requires key == XS || key == YS
    ensures var c := LockedEdit(key, b, o, wr, hr).value;
            (key == XS ==> c.xs == b.xs && c.xe - c.xs == o.xe - o.xs && c.ys == b.ys && c.ye == b.ye) &&
            (key == YS ==> c.ys == b.ys && c.ye - c.ys == o.ye - o.ys && c.xs == b.xs && c.xe == b.xe)
  {
  }

  /** An end edit under a positive ratio on an ordered box yields a box with
      exactly the ratio, so the checkbox stays set. */
  lemma EndEditKeepsLock(key: Field, b: Corners, o: Corners, wr: real, hr: real)
    requires key == XE || key == YE
    requires wr > 0.0 && hr > 0.0 && b.xe > b.xs && b.ye > b.ys
    ensures var c := LockedEdit(key, b, o, wr, hr);
            c.Some? && Drift(c.value, wr, hr) == Some(false)
  {
    var c := LockedEdit(key, b, o, wr, hr).value;
    if key == XE {
      var w := b.xe - b.xs;
      assert c.ye - c.ys == w * (hr / wr);
      ShareQuotient(w, hr / wr, wr / hr);
    } else {
      var h := b.ye - b.ys;
      assert c.xe - c.xs == h * (wr / hr);
      MulQuotient(h, wr / hr);
    }
  }

  /** `w / (w * k)` is `m` when `k * m` is 1. */
  lemma ShareQuotient(w: real, k: real, m: real)
    requires w > 0.0 && k > 0.0 && k * m == 1.0
    ensures w / (w * k) == m
  {
    assert (w * k) * m == w * (k * m);
  }

  /** `(h * k) / h` is `k`. */
  lemma MulQuotient(h: real, k: real)
    requires h > 0.0
    ensures (h * k) / h == k
  {
  }

  /** An edit with the checkbox clear ignores the lock text entirely. */
  lemma UnlockedIgnoresText(key: Field, xs: string, ys: string, xe: string, ye: string, t1: string, t2: string, p: Panel)
    ensures CoordEnter(key, xs, ys, xe, ye, false, t1, p) == CoordEnter(key, xs, ys, xe, ye, false, t2, p)
  {
  }

  /** Typing back the box the panel shows, with the checkbox clear, keeps the
      selection, for an image a whole multiple of the display size. */
  lemma EnterShownBox(key: Field, r: Rect, m: int, p: Panel, text: string)
    requires m >= 1 && p.display.w > 0 && p.display.h > 0 && ValidIn(r, p.display)
    requires p.crop == Some(r) && p.image == Some(ImageSize(m * p.display.w, m * p.display.h))
    ensures var d := p.display;
            var e := CoordEnter(key, IntToString(m * r.x), IntToString(m * r.y),
                                IntToString(m * (r.x + r.w)), IntToString(m * (r.y + r.h)), false, text, p);
            e == Entry(false, Some(r), false)
  {
    var d := p.display;
    var x1, y1, x2, y2 := m * r.x, m * r.y, m * (r.x + r.w), m * (r.y + r.h);
    ScaledBoxOrdered(r, m);
    PrintedBoxValidates(x1, y1, x2, y2);
    ShownBoxIsSelection(r, m, d);
    UnlockedEntry(key, IntToString(x1), IntToString(y1), IntToString(x2), IntToString(y2), text, p);
    NormalisedFits(r, d);
  }

  /** A selection scaled by a whole factor keeps its corners in order. */
  lemma ScaledBoxOrdered(r: Rect, m: int)
    requires m >= 1 && r.w > 0 && r.h > 0
    ensures m * (r.x + r.w) > m * r.x && m * (r.y + r.h) > m * r.y
  {
    assert m * (r.x + r.w) == m * r.x + m * r.w && m * (r.y + r.h) == m * r.y + m * r.h;
    MulPositive(m, r.w);
    MulPositive(m, r.h);
  }

  /** The source box of a selection on a whole-multiple image, brought back
      to the display, is the selection. */
  lemma ShownBoxIsSelection(r: Rect, m: int, d: Display)
    requires m >= 1 && d.w > 0 && d.h > 0 && ValidIn(r, d)
    ensures ShownRect(Corners((m * r.x) as real, (m * r.y) as real, (m * (r.x + r.w)) as real, (m * (r.y + r.h)) as real),
                      d, ImageSize(m * d.w, m * d.h)) == r
  {
    WholeScaleRoundTrip(r, m, d);
  }

  /** A box printed with `str` and ordered validates as itself. */
  lemma PrintedBoxValidates(x1: int, y1: int, x2: int, y2: int)
    requires x2 > x1 && y2 > y1
    ensures ValidatedBox(IntToString(x1), IntToString(y1), IntToString(x2), IntToString(y2)) == Valid(x1, y1, x2, y2)
  {
    ParseIntToString(x1);
    ParseIntToString(y1);
    ParseIntToString(x2);
    ParseIntToString(y2);
  }

  /** With the checkbox clear, a valid box on a panel with an image and a
      non-empty display becomes the selection, brought back and normalised. */
  lemma UnlockedEntry(key: Field, xs: string, ys: string, xe: string, ye: string, text: string, p: Panel)
    requires ValidatedBox(xs, ys, xe, ye).Valid? && p.image.Some? && p.display.w != 0 && p.display.h != 0
    ensures var v := ValidatedBox(xs, ys, xe, ye);
            var b := Corners(v.xs as real, v.ys as real, v.xe as real, v.ye as real);
            CoordEnter(key, xs, ys, xe, ye, false, text, p) ==
            Entry(false, Some(EnsureMinSize(ShownRect(b, p.display, p.image.value), p.display)), false)
  {
  }

  /** The box the panel shows before an entry, in source coordinates: the
      crop box of the selection, or the entered box when there is none. */
  function ShownBefore(b: Corners, p: Panel): (o: Corners)
    ensures CropBox(p.crop, p.image, p.display).Box? ==> o.xs < o.xe && o.ys < o.ye
    ensures !CropBox(p.crop, p.image, p.display).Box? ==> o == b
  {
    var shown := CropBox(p.crop, p.image, p.display);
    if shown.Box? then Corners(shown.x1 as real, shown.y1 as real, shown.x2 as real, shown.y2 as real) else b
  }

  /** With the checkbox on, a valid box and a lock text that parses to
      `wr:hr`, on a panel with an image and a non-empty display: when the
      lock rules raise, the checkbox stays on and the selection is kept;
      otherwise the selection is the box the rules computed, brought back
      and normalised, and the checkbox is cleared exactly when that box
      drifts more than 0.01 from the ratio (`RatioLock`). */
  lemma LockedEntry(key: Field, xs: string, ys: string, xe: string, ye: string, text: string, p: Panel,
                    wr: real, hr: real)
    requires ValidatedBox(xs, ys, xe, ye).Valid? && p.image.Some? && p.display.w != 0 && p.display.h != 0
    requires ParseRatio(text) == Some((wr, hr))
    ensures var v := ValidatedBox(xs, ys, xe, ye);
            var b := Corners(v.xs as real, v.ys as real, v.xe as real, v.ye as real);
            var s := RatioLock(key, b, ShownBefore(b, p), wr, hr);
            CoordEnter(key, xs, ys, xe, ye, true, text, p) ==
              if s.raised then Entry(true, p.crop, true)
              else Entry(s.locked, Some(EnsureMinSize(ShownRect(s.box, p.display, p.image.value), p.display)), false)
  {
    var v := ValidatedBox(xs, ys, xe, ye);
    var b := Corners(v.xs as real, v.ys as real, v.xe as real, v.ye as real);
    LockedStep(key, b, ShownBefore(b, p), text, wr, hr);
  }

  /** A locked entry whose edited box drifts more than 0.01 from the ratio
      clears the checkbox. */
  lemma DriftClearsLock(key: Field, xs: string, ys: string, xe: string, ye: string, text: string, p: Panel,
                        wr: real, hr: real)
    requires ValidatedBox(xs, ys, xe, ye).Valid? && p.image.Some? && p.display.w != 0 && p.display.h != 0
    requires ParseRatio(text) == Some((wr, hr))
    requires var v := ValidatedBox(xs, ys, xe, ye);
             var b := Corners(v.xs as real, v.ys as real, v.xe as real, v.ye as real);
             var c := LockedEdit(key, b, ShownBefore(b, p), wr, hr);
             c.Some? && Drift(c.value, wr, hr) == Some(true)
    ensures !CoordEnter(key, xs, ys, xe, ye, true, text, p).locked
  {
    LockedEntry(key, xs, ys, xe, ye, text, p, wr, hr);
  }

  lemma MulPositive(a: int, b: int)
    requires a > 0 && b > 0
    ensures a * b > 0
  {
  }

  // ---------------------------------------------------------------- the lock toggle

  /** `OnAspectToggle` with checkbox value `lock` and lock text `text`: the
      panel takes the lock state; turning it on also takes the text and
      refits a selection to the ratio, or builds the initial one. */
  function AspectToggled(p: Panel, lock: bool, text: string): (r: Panel)
    ensures r.fixed == lock
    ensures !lock ==> r == p.(fixed := false)
  {
    var p1 := p.(fixed := lock);
    if !lock then p1
    else
      var p2 := p1.(aspect := text);
      if p2.crop.Some? then ApplyRatio(p2) else InitCrop(p2)
  }

  /** Turning the lock on leaves a selection inside a roomy display, and
      turning it off changes nothing but the lock state. */
  lemma AspectToggledFits(p: Panel, lock: bool, text: string)
    requires Fits(p)
    ensures Fits(AspectToggled(p, lock, text))
  {
    var p2 := p.(fixed := lock, aspect := text);
    if lock {
      UpkeepFits(p2);
    }
  }

  // ---------------------------------------------------------------- the panel object

  class ControlPanel {
    const preview: PreviewPanel
    var locked: bool
    var aspectText: string
    var xsText: string
    var ysText: string
    var xeText: string
    var yeText: string

    constructor (p: PreviewPanel)
      ensures preview == p && locked && aspectText == "1:1"
    {
      preview := p;
      locked, aspectText := true, "1:1";
      xsText, ysText, xeText, yeText := "", "", "", "";
    }

    /** `OnAspectToggle`: the checkbox and the lock text go to the panel, the
        selection is refitted, and the fields show the box of the result. */
    method OnAspectToggle()
      modifies this, preview
      ensures preview.State() == AspectToggled(old(preview.State()), locked, aspectText)
      ensures Shows(CropBox(preview.crop, preview.image, preview.display), old(xsText), old(ysText), old(xeText), old(yeText))
      ensures locked == old(locked) && aspectText == old(aspectText)
    {
      var lock := locked;
      preview.fixed := lock;
      if lock {
        preview.aspect := aspectText;
        if preview.crop.Some? {
          preview.ApplyAspectRatioToSelection();
        } else {
          preview.InitCropRect();
        }
      }
      UpdateControls();
    }

    /** `OnCoordEnter` for the edited field `key`. After an entry that
        went through, the fields show the box of the new selection. */
    method OnCoordEnter(key: Field)
      modifies this, preview
      ensures var e := CoordEnter(key, old(xsText), old(ysText), old(xeText), old(yeText), old(locked), old(aspectText),
                                  old(preview.State()));
              locked == e.locked && preview.State() == old(preview.State()).(crop := e.crop)
      ensures var e := CoordEnter(key, old(xsText), old(ysText), old(xeText), old(yeText), old(locked), old(aspectText),
                                  old(preview.State()));
              if ValidatedBox(old(xsText), old(ysText), old(xeText), old(yeText)).Valid? && !e.raised then
                Shows(CropBox(e.crop, preview.image, preview.display), old(xsText), old(ysText), old(xeText), old(yeText))
              else
                xsText == old(xsText) && ysText == old(ysText) && xeText == old(xeText) && yeText == old(yeText)
      ensures aspectText == old(aspectText)
    {
      var e := CoordEnter(key, xsText, ysText, xeText, yeText, locked, aspectText, preview.State());
      var through := ValidatedBox(xsText, ysText, xeText, yeText).Valid? && !e.raised;
      locked := e.locked;
      preview.crop := e.crop;
      if through {
        UpdateControls();
      }
    }

    /** Whether the fields show `b`: the box's four coordinates printed when
        there is a box, otherwise the texts `xs`, `ys`, `xe`, `ye` kept. */
    predicate Shows(b: BoxOutcome, xs: string, ys: string, xe: string, ye: string)
      reads this
    {
      if b.Box? then
        xsText == IntToString(b.x1) && ysText == IntToString(b.y1) &&
        xeText == IntToString(b.x2) && yeText == IntToString(b.y2)
      else
        xsText == xs && ysText == ys && xeText == xe && yeText == ye
    }

    /** `UpdateControls`: the box of the selection printed into the four
        fields; without a box the fields keep their texts. The panel's own
        editing guard is never set, so it never skips the update. */
    method UpdateControls()
      modifies this
      ensures Shows(CropBox(preview.crop, preview.image, preview.display), old(xsText), old(ysText), old(xeText), old(yeText))
      ensures locked == old(locked) && aspectText == old(aspectText)
    {
      var b := CropBox(preview.crop, preview.image, preview.display);
      if b.Box? {
        xsText, ysText, xeText, yeText := IntToString(b.x1), IntToString(b.y1), IntToString(b.x2), IntToString(b.y2);
      }
    }
  }
}
