# Batch-Cropper, modelled in Dafny

Batch-Cropper is a desktop tool that crops many images with one box. The user draws, moves or
resizes a selection on a scaled preview of the current image, or types the box in source-pixel
coordinates. The tool then trims every loaded image to that box, optionally reduces PNG colours,
and lets the user undo those batch steps through a bounded history.

This project models the core of that program:

- **Geometry** (`geometry.dfy`): the selection rectangle in display pixels. This covers the
  normaliser that clamps a rectangle into the display and raises it to the minimum size
  (`MIN_CROP_SIZE` = 4), free and ratio-locked creation, moves, free and ratio-locked resizes by
  side and corner handles, applying a new lock ratio, rescaling on a panel resize, the initial
  selection, the handle hit test with its fixed order, and the unused `HitTestEdge`.
- **Mapping** (`mapping.dfy`): how the image is fitted into the panel (scale, `int()`
  truncation, centring with `//`), the display-to-source crop box (floor, ceil, clamps), and the
  source-to-display mapping with `round`.
- **Preview** (`preview.dfy`): the preview panel as a class whose handlers update `mode`, the
  drag handle, the original rectangle, the drag start and the selection. Each handler is proved
  equal to a pure transition, and lemmas about those transitions give the pointer state machine's
  classification and invariants.
- **Controls** (`controls.dfy`): the coordinate fields. This covers validation of the typed box,
  the locked-edit rules (translate on a start edit, recompute the other end on an end edit, clear
  the lock when the ratio drifts by more than 0.01), and the lock checkbox.
- **Session** (`session.dfy`): the main window's document lists and undo history. This covers
  `PushHistory` with first-in-first-out eviction at `MAX_HISTORY` = 10, undo, the batch trim and
  colour reduction (a failed document is dropped), adding files, clipboard and screen imports
  (which reset history), and clearing.
- **Support**: `python.dfy` holds Python's `round` (half to even), `int()` truncation, `//`,
  `math.floor` and `math.ceil` on reals. `text.dfy` holds `int()`/`float()` parsing of an ASCII
  subset and `str()`. `paths.dfy` holds `os.path.splitext`, `add_bc_suffix`, the image-extension
  tests, and `build_unique_path`'s counter loop.

Images are opaque values (`ImageSize` in the preview, a type parameter `Img` in the session).
Cropping, colour reduction, opening, saving and capturing are partial functions that the caller
passes in, or boolean and `Option` parameters. The clock is a `stamp` parameter, and the existing
files are a `set<string>` parameter.

## Model

| member | source | states |
|---|---|---|
| Python.FloorDiv | Batch-Cropper.py:545-546 | `//` rounds toward minus infinity: `b*r <= a < b*r + b` |
| Python.Floor | Batch-Cropper.py:861-862 | `math.floor`: the greatest integer not above `x` |
| Python.Ceil | Batch-Cropper.py:863-864 | `math.ceil`: the least integer not below `x` |
| Python.Trunc | Batch-Cropper.py:543-544 | `int()` on a float: rounds toward zero, from below for non-negative and from above for negative values |
| Python.Round | Batch-Cropper.py:992-995 | `round`: within one half of `x`, exact on integers, and an even result on a tie |
| Python.RoundTimes | Batch-Cropper.py:283-286 | `round(n * k)` is within one half of `n * k` and breaks ties to even |
| Python.RoundOver | Batch-Cropper.py:281-288 | `round(n / k)` is within one half of `n / k` |
| Python.RoundMonotone | Batch-Cropper.py:992-995 | `round` is monotone |
| Python.RoundTimesBy | Batch-Cropper.py:834-842 | rounding a product by a whole factor gives the exact product |
| Python.RoundTimesMonotone | Batch-Cropper.py:287-288 | `round(m*k) <= round(n*k)` for `m <= n` and `k >= 0` |
| Python.HalfRoundIsRound | Batch-Cropper.py:201-214 | integer halving with ties to even equals `round(n / 2)` |
| Text.DigitChar | Batch-Cropper.py:1006-1009 | a digit character and its value |
| Text.StripLeft | Batch-Cropper.py:1006-1009 | leading whitespace is removed, and the rest is a suffix |
| Text.StripRight | Batch-Cropper.py:1006-1009 | trailing whitespace is removed, and the rest is a prefix |
| Text.Strip | Batch-Cropper.py:1006-1009 | definition: `strip()` of ASCII whitespace, leading then trailing; what it removes and keeps is stated by `StripLeft`, `StripRight` and `StripUnchanged` |
| Text.StripUnchanged | Batch-Cropper.py:1006-1009 | text without surrounding whitespace is unchanged |
| Text.NatToString | Batch-Cropper.py:824-827 | `str()` of a natural number: digits only, with no leading zero |
| Text.IntToString | Batch-Cropper.py:824-827 | definition: `str(n)`, a minus sign before the digits of a negative number; `ParseIntToString` proves `int()` reads it back and `IntToStringInjective` that no two integers share it |
| Text.ParseInt | Batch-Cropper.py:1006-1009 | definition: `int()` of a field: the stripped text is an optional sign and at least one ASCII digit, otherwise `None` where Python raises `ValueError`; its values are stated by `SignedDigitsOfDigits` and `ParseIntToString` |
| Text.SignedDigits | Batch-Cropper.py:1006-1009 | definition: an optional `+` or `-` followed by at least one digit and nothing else, negated after `-`; `SignedDigitsOfDigits` states its value on digits and their negation |
| Text.DigitsOfNat | Batch-Cropper.py:824-827 | the digits of `str(n)` have the value `n` |
| Text.SignedDigitsOfDigits | Batch-Cropper.py:1006-1009 | `int()` reads a digit string and its negation |
| Text.ParseIntToString | Batch-Cropper.py:824-827 | `int(str(n)) == n` for every integer |
| Text.IntToStringInjective | Batch-Cropper.py:824-827 | different integers print differently |
| Text.IndexOf | Batch-Cropper.py:231 | the first position of a character, or -1 when it is absent |
| Text.Unsigned | Batch-Cropper.py:231 | an unsigned decimal reads as a non-negative real |
| Text.ParseFloat | Batch-Cropper.py:231 | definition: `float()` of a ratio term: the stripped text is an optional sign and an unsigned decimal, otherwise `None`; `ParseFloatDigits` gives its value on digit strings |
| Text.SignedDecimal | Batch-Cropper.py:231 | definition: an optional sign before an unsigned decimal, negated after `-`; `SignedDecimalDigits` gives its value on digit strings and `Unsigned` shows the unsigned part is non-negative |
| Text.SplitColon | Batch-Cropper.py:231 | `split(':')` into exactly two parts: the parts joined with `:` give the text, and neither part holds a colon |
| Text.SplitColonJoin | Batch-Cropper.py:231 | two colon-free parts joined by `:` split back into those parts |
| Text.ParseRatio | Batch-Cropper.py:231 | definition: `map(float, text.split(':'))` unpacked into two names: `None` unless there is exactly one colon and both parts are numbers; `ParseRatioDigits` and `DefaultRatioText` state its values |
| Text.ParseFloatDigits | Batch-Cropper.py:231 | `float()` of a digit string is its value |
| Text.SignedDecimalDigits | Batch-Cropper.py:231 | a digit string reads as its value |
| Text.StripDigits | Batch-Cropper.py:231 | a digit string has no whitespace to strip |
| Text.UnsignedDigits | Batch-Cropper.py:231 | an unsigned digit string reads as its value |
| Text.ParseRatioDigits | Batch-Cropper.py:231 | `W:H` with digit terms parses to the two values |
| Text.DefaultRatioText | Batch-Cropper.py:231 | the default lock text `1:1` parses to `(1, 1)` |
| Text.Lower | Batch-Cropper.py:1160 | `lower()` restricted to ASCII keeps the length of the text |
| Text.LowerChars | Batch-Cropper.py:1160 | `lower()` restricted to ASCII maps each character on its own, changing exactly the ASCII capitals |
| Paths.LastSep | Batch-Cropper.py:87-88 | -1, or the position of a path separator |
| Paths.LastSepIsLast | Batch-Cropper.py:87-88 | no separator follows the position `LastSep` finds |
| Paths.LastDot | Batch-Cropper.py:87-88 | -1, or the position of a dot |
| Paths.LastDotIsLast | Batch-Cropper.py:87-88 | no dot follows the position `LastDot` finds |
| Paths.SplitExt | Batch-Cropper.py:89 | definition: `os.path.splitext`: root and extension at the last dot of the last component when something other than dots precedes it, otherwise the whole path and an empty extension; `SplitExtParts` states that the parts rejoin and the form of the extension |
| Paths.SplitExtParts | Batch-Cropper.py:87-88 | `splitext`: root plus extension is the path; the extension is empty exactly when the path has no extension, and otherwise a dot followed by plain characters |
| Paths.LastSepAppend | Batch-Cropper.py:87-92 | appending separator-free text keeps the last separator |
| Paths.LastDotAppend | Batch-Cropper.py:87-92 | appending plain text keeps the last dot |
| Paths.HasExtAppendPlain | Batch-Cropper.py:87-92 | appending plain text does not change whether there is an extension |
| Paths.SplitWithExt | Batch-Cropper.py:87-92 | a `_bc` stem followed by an extension splits back into those two parts |
| Paths.SplitWithoutExt | Batch-Cropper.py:87-92 | a `_bc` stem without an extension splits back to itself |
| Paths.SplitSuffixed | Batch-Cropper.py:87-92 | the result of `add_bc_suffix` splits into the new stem and the old extension |
| Paths.HasBcStem | Batch-Cropper.py:1369-1378 | definition: the `splitext` root ends in `_bc`, the test a revert uses to choose files to delete and rewrite; `Session.BcFilesMembers` states the choice |
| Paths.AddBcSuffix | Batch-Cropper.py:87-92 | definition: the root without one trailing `_bc`, then `_bc`, then the extension; `AddBcSuffixShape` proves the extension is kept and the root ends in `_bc`, and `AddBcSuffixIdempotent` that applying it twice is applying it once |
| Paths.AddBcSuffixShape | Batch-Cropper.py:87-92 | `add_bc_suffix` keeps the extension and gives a root ending in `_bc` |
| Paths.AddBcSuffixIdempotent | Batch-Cropper.py:87-92 | `add_bc_suffix(add_bc_suffix(p)) == add_bc_suffix(p)` |
| Paths.IsImagePath | Batch-Cropper.py:1160-1161 | definition: the lowered extension is one of `.jpg`, `.jpeg`, `.png`, `.bmp`, `.tiff`, `.tif`; `Session.AddCandidate` and `Session.AddAllExtends` state that exactly such paths are added |
| Paths.IsPngPath | Batch-Cropper.py:1291 | definition: the lowered extension is `.png`; `Session.CheckAllPng` and `Session.Reduced` state the reduction's guard with it |
| Paths.StripDots | Batch-Cropper.py:78 | `lstrip('.')`: the result does not start with a dot |
| Paths.ImportStem | Batch-Cropper.py:79-80 | definition: `base_dir / f"{prefix}_{timestamp}"`, joined with the Windows separator |
| Paths.CounterPart | Batch-Cropper.py:80-84 | definition: nothing for the first try, `_1`, `_2`, ... for the retries; distinct counters give distinct parts, as `CandidateInjective` uses |
| Paths.Candidate | Batch-Cropper.py:78-84 | definition: the `k`-th path the loop tries; `CandidateInjective` proves the candidates distinct and `BuildUniquePath` returns the first free one |
| Paths.CandidateInjective | Batch-Cropper.py:79-84 | distinct counters give distinct candidate paths |
| Paths.BuildUniquePath | Batch-Cropper.py:76-85 | the returned path is not among the existing files, and it is the first candidate in counter order that is free |
| Paths.FirstFree | Batch-Cropper.py:76-85 | definition: counter `k` gives a free candidate and every smaller counter a taken one; `FirstFreeUnique` proves at most one counter qualifies and `Session.MainFrame.Import` saves under it |
| Paths.FirstFreeUnique | Batch-Cropper.py:79-84 | at most one counter is the first free one |
| Geometry.EnsureWithin | Batch-Cropper.py:238-260 | a display with a side of zero or less gives the empty rectangle; otherwise the size is cut to the display and raised to 4, and the corner is clamped; on a display of at least 4 by 4 the result lies inside and is at least 4 by 4; a valid rectangle is unchanged |
| Geometry.EnsureMinSize | Batch-Cropper.py:262-268 | `_ensure_min_size` equals the single normaliser |
| Geometry.EnsureWithinIdempotent | Batch-Cropper.py:238-268 | normalising twice is normalising once |
| Geometry.ClampPoint | Batch-Cropper.py:179-183 | the clamped point lies in the closed display, and a point already there is kept |
| Geometry.InDisplay | Batch-Cropper.py:185-186 | definition: `_point_in_display`, both bounds included; `Preview.PressedClassifies` uses it for the creation branch |
| Geometry.ContainsClosed | Batch-Cropper.py:188-190 | definition: `_rect_contains_point`, the closed rectangle; `Preview.PressedClassifies` uses it for the move branch |
| Geometry.ContainsHalfOpen | Batch-Cropper.py:221-225 | definition: `wx.Rect.Contains`, the half-open square a handle hit needs; `Preview.PreviewPanel.HitTestHandle` states the first handle whose square contains the point is returned |
| Geometry.Quotient | Batch-Cropper.py:230-234 | `W / H` exists exactly when the text parsed and `H` is not zero, and it times `H` is `W` |
| Geometry.AspectRatio | Batch-Cropper.py:227-236 | no ratio when the lock is off |
| Geometry.DefaultAspectRatio | Batch-Cropper.py:227-236 | the default `1:1` lock gives ratio 1, and no ratio when the lock is off |
| Geometry.CreateWithRatio | Batch-Cropper.py:270-291 | any drag that moved gives at least 4 by 4 on a non-empty display |
| Geometry.Toward | Batch-Cropper.py:285-290 | the rectangle has the chosen extents and the anchor as one corner |
| Geometry.RatioExtents | Batch-Cropper.py:275-284 | with both extents non-zero, one of them is kept; one kept extent is always the rounded share of the other |
| Geometry.RatioStep | Batch-Cropper.py:270-291 | a drag that moved normalises the kept extents laid out from the anchor towards the pointer |
| Geometry.RatioExtentsFollow | Batch-Cropper.py:275-284 | the kept extents follow the ratio up to the rounding of one side and are never negative; from two non-zero extents neither grows |
| Geometry.RatioExtentsWithin | Batch-Cropper.py:281-284 | from two non-zero extents the kept extents are at most the drag's |
| Geometry.CutWidthWithin | Batch-Cropper.py:281-282 | a drag wider than the ratio has its width cut to no more than the drag's width |
| Geometry.CutHeightWithin | Batch-Cropper.py:283-284 | a drag no wider than the ratio has its height cut to no more than the drag's height |
| Geometry.SharesNonNegative | Batch-Cropper.py:277-284 | `round(n * r)` and `round(n / r)` of a non-negative extent under a positive ratio are non-negative |
| Geometry.ShareFollows | Batch-Cropper.py:281-284 | a size one of whose sides is the rounded share of the other follows the ratio |
| Geometry.CreateRectFollows | Batch-Cropper.py:270-305 | a ratio-locked creation that no clamp touched (above 4 on both sides, clear of every display edge) follows the ratio up to the rounding of one side |
| Geometry.CreateWithRatioKeepsExtents | Batch-Cropper.py:270-291 | normalising the ratio step again changes nothing, and an unclamped result has exactly the kept extents |
| Geometry.UnclampedKeepsSize | Batch-Cropper.py:238-260 | a normalised rectangle that no clamp touched has the original size and lies past the original's start edges |
| Geometry.CreateRect | Batch-Cropper.py:293-305 | creation always yields a valid rectangle on a display of at least 4 by 4 |
| Geometry.CreateFreeExact | Batch-Cropper.py:293-305 | without a lock, two display points at least 4 apart on each axis give exactly `(min x, min y, abs dx, abs dy)` |
| Geometry.CreateSquare | Batch-Cropper.py:270-305 | under ratio 1, with both deltas non-zero and the shorter one at least 4, the result is a square of that side with the anchor as a corner |
| Geometry.SquareSelected | Batch-Cropper.py:270-305 | under ratio 1 a drag between two display points selects exactly the square on the shorter extent |
| Geometry.SquarePath | Batch-Cropper.py:270-291 | under ratio 1 the ratio path normalises the square towards the pointer |
| Geometry.SquareFrom | Batch-Cropper.py:270-291 | definition: the square whose side is the shorter drag extent, cornered at the anchor towards the pointer; `SquareSelected` proves that creation under `1:1` gives it, and `SquareFromFits` that it fits the display |
| Geometry.CreateInside | Batch-Cropper.py:293-305 | for two display points under an active ratio the point clamps do nothing, so creation is the ratio path then `_ensure_min_size` |
| Geometry.SquareExtents | Batch-Cropper.py:275-284 | under ratio 1 both non-zero extents become the shorter one |
| Geometry.MoveRect | Batch-Cropper.py:317-324 | a move is always valid on a large enough display; from a valid rectangle it keeps the size, and each corner coordinate is the moved one clamped to `[0, display - size]` |
| Geometry.MoveInside | Batch-Cropper.py:317-324 | a move that stays inside is an exact translation |
| Geometry.ResizeFree | Batch-Cropper.py:435-455 | the result is at least 4 by 4, and its corner lies in the display |
| Geometry.ResizeFreeKeepsUnnamedEdges | Batch-Cropper.py:435-455 | `x` is kept unless the handle's name contains `left`, and `y` unless it contains `top` |
| Geometry.ResizeFreeUntouchedAxis | Batch-Cropper.py:437-440 | an axis the handle does not name loses one pixel, because the end is read as `Right = x + w - 1` |
| Geometry.ResizeFreeFollowsPointer | Batch-Cropper.py:441-456 | a named right or bottom edge goes to the pointer, keeping the start, unless that leaves less than 4 pixels, when the side becomes 4; a named left or top edge goes to the pointer, keeping the old end, unless that leaves less than 4 pixels, when the start becomes the old end minus 4 (at least 0) |
| Geometry.HorizontalSize | Batch-Cropper.py:327-331 | the laid-out width is at least 4, and on a display at least 4 high the height is between 4 and the display height |
| Geometry.FromHorizontalAnchor | Batch-Cropper.py:326-343 | the height lies in the display and is at least 4; the right end is the anchor (to the left), or the left end starts at the anchor, cut at the display edge; the height is the laid-out height, and so is the width unless it was cut at the left edge |
| Geometry.HorizontalAnchorFollows | Batch-Cropper.py:326-343 | a horizontal pivot whose height is above 4 and below the display, and whose width was not cut at the left edge, follows the ratio |
| Geometry.VerticalSize | Batch-Cropper.py:346-350 | the laid-out height is at least 4, and on a display at least 4 wide the width is between 4 and the display width |
| Geometry.FromVerticalAnchor | Batch-Cropper.py:345-362 | the same with the axes exchanged |
| Geometry.VerticalAnchorFollows | Batch-Cropper.py:345-362 | a vertical pivot whose width is above 4 and below the display, and whose height was not cut at the top edge, follows the ratio |
| Geometry.CornerAnchor | Batch-Cropper.py:365-380 | the fixed corner and growth directions of ±1 for each corner handle |
| Geometry.CornerExtents | Batch-Cropper.py:381-384 | each extent from the fixed corner is at least 4 and at most the display's side |
| Geometry.CornerSize | Batch-Cropper.py:389-393 | the height is at most the drag's, one extent is kept, and one side is the rounded share of the other |
| Geometry.ResizeCorner | Batch-Cropper.py:364-409 | the corner resize is already normalised, and its size is the corner size raised to 4 and cut to the display |
| Geometry.CornerFollows | Batch-Cropper.py:364-409 | a corner resize with both sides above 4 and below the display follows the ratio |
| Geometry.ResizeWithRatio | Batch-Cropper.py:411-433 | a locked resize is valid on a large enough display |
| Geometry.RatioPivot | Batch-Cropper.py:415-432 | the left handle keeps the right edge and the top handle the bottom edge, each cut to the display |
| Geometry.ResizeWithRatioFollows | Batch-Cropper.py:411-433 | a locked resize that no clamp touched follows the ratio up to the rounding of one side, for every handle |
| Geometry.PivotFollows | Batch-Cropper.py:415-432 | the pivot of every handle follows the ratio when its sides are above 4 and below the display and it lies past the start edges |
| Geometry.LeftPivotFollows | Batch-Cropper.py:415-418 | the same for the left handle |
| Geometry.RightPivotFollows | Batch-Cropper.py:419-422 | the same for the right handle |
| Geometry.TopPivotFollows | Batch-Cropper.py:423-426 | the same for the top handle |
| Geometry.BottomPivotFollows | Batch-Cropper.py:427-430 | the same for the bottom handle |
| Geometry.MinimumOverridesRatio | Batch-Cropper.py:364-409 | under 16:9 a corner dragged from the origin to (5, 10) gives 5 by 4, which does not follow the ratio: the minimum wins over the share 3 |
| Geometry.ResizeSelection | Batch-Cropper.py:457-466 | the dispatcher always gives a valid rectangle on a large enough display, and without a ratio it takes the free path |
| Geometry.ResizeSelectionFree | Batch-Cropper.py:435-466 | a free resize from a valid rectangle, with the pointer in the display, is `_resize_free` of the drag, at least 4 by 4, and keeps the unnamed edges |
| Geometry.ResizeFreeFits | Batch-Cropper.py:435-455 | from a valid rectangle, with the pointer in the display, the free resize is valid |
| Geometry.LockedHeight | Batch-Cropper.py:497-501 | the starting height of a ratio application is at least 1 |
| Geometry.FitCut | Batch-Cropper.py:506-512 | the four cut cases of the width and height against the display |
| Geometry.FitToDisplay | Batch-Cropper.py:506-512 | definition: the width `round(h * ratio)`, cut to the display width (height recomputed as `round(w / ratio)`), then to the display height (width recomputed); `FitCut` states the four cases, `FitToDisplayFits` the bounds and `FitToDisplayFollows` that it follows the ratio |
| Geometry.FitToDisplayFits | Batch-Cropper.py:506-512 | under a positive ratio the fitted size lies within the display |
| Geometry.FitCutFits | Batch-Cropper.py:502-507 | the cuts lie within the display |
| Geometry.FitToDisplayFollows | Batch-Cropper.py:502-507 | the fitted size follows the ratio up to the rounding of one side |
| Geometry.FitCutFollows | Batch-Cropper.py:502-507 | each cut case keeps the ratio |
| Geometry.RoundFollows | Batch-Cropper.py:502 | `(round(h * ratio), h)` follows the ratio |
| Geometry.ScaledRoundMonotone | Batch-Cropper.py:502-507 | the rounded width grows with the height |
| Geometry.DivBound | Batch-Cropper.py:503-507 | a height cut below `round(w / ratio)` gives back a width of at most `w` |
| Geometry.ScaledRounding | Batch-Cropper.py:503-507 | `h = round(w / ratio)` puts `w` within `ratio / 2` of `h * ratio` |
| Geometry.AspectSize | Batch-Cropper.py:493-510 | the applied size is at least 4 by 4 |
| Geometry.RaiseToMin | Batch-Cropper.py:509-510 | each side is raised to 4 and otherwise kept |
| Geometry.AspectSizeFollowsRatio | Batch-Cropper.py:493-510 | on a large enough display the size fits the display, and it follows the ratio when neither side was raised |
| Geometry.RaisedFollows | Batch-Cropper.py:509-510 | raising a fitted size keeps it within the display |
| Geometry.ApplyAspect | Batch-Cropper.py:489-518 | applying the lock ratio always gives a valid rectangle on a large enough display |
| Geometry.ApplyAspectSize | Batch-Cropper.py:489-518 | the rectangle takes exactly the applied size |
| Geometry.Recentre | Batch-Cropper.py:511-518 | the recentred rectangle is valid on a large enough display |
| Geometry.Centred | Batch-Cropper.py:496-497 | definition: the rectangle of the given size whose start is `round(centre - side / 2)` on each axis; `Geometry.ApplyAspectSize` and `Geometry.RecentreKeepsCentre` state what recentring keeps |
| Geometry.RecentreKeepsCentre | Batch-Cropper.py:511-518 | when the recentred rectangle already fits, it keeps the new size and its centre is within half a pixel of the old centre |
| Geometry.ApplyAspectExample | Batch-Cropper.py:489-518 | a 200 by 200 selection at the origin of an 800 by 600 display under 16:9 becomes `(0, 44, 199, 112)` |
| Geometry.ScaledStart | Batch-Cropper.py:834-842 | the new start is the old start scaled and rounded |
| Geometry.Rescale | Batch-Cropper.py:829-844 | a rescaled rectangle is valid on a large enough display |
| Geometry.ScaleBy | Batch-Cropper.py:834-844 | scaling about the origin is valid on a large enough display |
| Geometry.ScaleByWhole | Batch-Cropper.py:834-844 | whole factors whose product still fits give the exact product |
| Geometry.RescaleSameDisplay | Batch-Cropper.py:829-844 | an unchanged display keeps a valid selection |
| Geometry.RescaleDoubles | Batch-Cropper.py:829-844 | doubling the display doubles a selection that still fits |
| Geometry.ClipRect | Batch-Cropper.py:741-744 | `ClipRect` on integer fields is the normaliser |
| Geometry.InitSizeOf | Batch-Cropper.py:687-703 | without a lock, or when parsing fails, the size is the quarter-width square |
| Geometry.InitSize | Batch-Cropper.py:687-703 | without a lock the size is the quarter-width square |
| Geometry.InitSizeFollowsRatio | Batch-Cropper.py:691-698 | with `W < H` the height is a quarter of the display height and the width is its truncated share; otherwise the width is a quarter and the height is its share |
| Geometry.ShareBound | Batch-Cropper.py:694-697 | `int(n * k)` rounds a positive share down |
| Geometry.TruncShare | Batch-Cropper.py:697-701 | definition: `int(n * k)`, truncated; `ShareBound` proves it is the share rounded down for non-negative arguments, and `Mapping.FitKeepsProportion` uses it for the display sides |
| Geometry.InitRect | Batch-Cropper.py:687-711 | the initial selection is valid on a large enough display |
| Geometry.InitSizeDefault | Batch-Cropper.py:687-703 | the default `1:1` lock gives the quarter-width square |
| Geometry.SquareShare | Batch-Cropper.py:694-697 | the ratio `1:1` gives the quarter-width square |
| Geometry.HitTestEdge | Batch-Cropper.py:720-739 | each corner is reported exactly when the pointer is near both of its sides and nearer none of the corners tested before it (top-left, top-right, bottom-left, bottom-right); a side is reported only inside the perpendicular span and away from its corners; no edge exactly when no rule applies |
| Geometry.HitTestEdgeExamples | Batch-Cropper.py:720-739 | on a 100 by 100 rectangle at the origin, (100, 0) hits the top-right corner, (50, 100) the bottom side and (50, 50) nothing; on a 2 by 2 rectangle, where all corners are near, (1, 1) hits the top-left corner |
| Geometry.Near | Batch-Cropper.py:721-724 | definition: a distance below `EDGE_THRESHOLD`; the cases of `HitTestEdge` are stated with it |
| Geometry.DoubledPoint | Batch-Cropper.py:200-212 | twice each handle's corner or edge midpoint, as integers |
| Geometry.HandlePoint | Batch-Cropper.py:192-212 | definition: each handle's corner or edge midpoint, with right and bottom at `x + w` and `y + h`; `DoubledPoint` and `HandleRect` state the whole numbers and squares built from it |
| Geometry.HandleRect | Batch-Cropper.py:213-214 | each handle square is `HANDLE_SIZE` by `HANDLE_SIZE` |
| Geometry.HandleRectRounds | Batch-Cropper.py:213-214 | the square's corner is the rounded handle point less half the size |
| Geometry.FirstHit | Batch-Cropper.py:221-225 | the first handle in the order whose square contains the point, with no earlier one containing it |
| Geometry.HandleAt | Batch-Cropper.py:192-225 | no handle without a selection; a found handle's square contains the point; when none is found, no square contains it |
| Geometry.TopLeftCornerWins | Batch-Cropper.py:203-225 | the selection's own corner picks `top_left`, because that handle is tried first |
| Mapping.FitScale | Batch-Cropper.py:542 | the scale is the smaller of the two panel-to-image quotients |
| Mapping.Fit | Batch-Cropper.py:537-547 | definition: each display side is `int(side * scale)` and each offset `(panel - display) // 2`; `FitFills` and `FitKeepsProportion` state that it fits, fills one side, centres and keeps the proportion |
| Mapping.FitFills | Batch-Cropper.py:537-547 | the picture fits the panel and fills it along one side; the margins split evenly, with the odd pixel on the right or bottom |
| Mapping.FitKeepsProportion | Batch-Cropper.py:543-544 | each display side is its image side times the scale, truncated |
| Mapping.CropBox | Batch-Cropper.py:846-871 | no box exactly when the selection or the image is missing; a division by zero exactly on a zero display side; otherwise `0 <= x1 < x2 <= iw` and `0 <= y1 < y2 <= ih` |
| Mapping.CropBoxUnclamped | Batch-Cropper.py:861-869 | for a valid selection the clamps do not act |
| Mapping.SpanUnclamped | Batch-Cropper.py:861-869 | one axis of the above |
| Mapping.CropBoxExample | Batch-Cropper.py:537-547 | a 1600 by 1200 image on an 800 by 600 panel fills it, and `(100,100,200,200)` maps to `(200,200,600,600)` |
| Mapping.ToDisplay | Batch-Cropper.py:986-995 | the display coordinate is within one half of the scaled source coordinate |
| Mapping.WholeScaleRoundTrip | Batch-Cropper.py:846-871 | for an image a whole multiple of the display, the box is the scaled selection, and mapping it back gives the selection again |
| Mapping.WholeAxis | Batch-Cropper.py:861-864 | one axis of the round trip |
| Mapping.RoundTripNear | Batch-Cropper.py:846-871 | for any image at least as large as the display, the box of a valid selection brought back to the display with the scale of `OnCoordEnter` starts at most one pixel before the selection and ends at most one pixel after it |
| Mapping.AxisNear | Batch-Cropper.py:861-864 | one axis of the above |
| Mapping.StartNear | Batch-Cropper.py:861-862 | the floored start comes back to within one pixel below the display start |
| Mapping.EndNear | Batch-Cropper.py:863-864 | the ceiled end comes back to within one pixel above the display end |
| Mapping.InverseFactor | Batch-Cropper.py:856-857 | the display-to-image factor times its inverse is 1, and the inverse is at most 1 for an image at least as large as the display |
| Preview.RectFromCrop | Batch-Cropper.py:307-311 | rounding integer fields keeps the selection |
| Preview.RectTruthy | Batch-Cropper.py:317-319 | definition: the drag-start rectangle is present and not `(0, 0, 0, 0)`, which is when a `wx.Rect` tests true |
| Preview.UpdateGeometry | Batch-Cropper.py:537-547 | definition: without an image the panel is unchanged, otherwise `Mapping.Fit` sets the display and offsets; `Preview.PreviewPanel.UpdateDisplayGeometry` is proved equal to it |
| Preview.RescaleCrop | Batch-Cropper.py:829-844 | definition: without a selection or from a display with a zero side nothing changes, otherwise the selection becomes `Geometry.Rescale` of it; `RescaleCropRect` is proved equal to it and `ResizedFits` keeps `Fits` |
| Preview.Resized | Batch-Cropper.py:549-556 | definition: the display is remembered as the old one, the geometry refitted and a selection rescaled; `OnSize` is proved equal to it, and `ResizedKeepsDrag`, `ResizedFits` and `ResizedFromEmptyDisplay` state its properties |
| Preview.ApplyRatio | Batch-Cropper.py:489-518 | definition: with the lock on, a selection and an active ratio the selection becomes `Geometry.ApplyAspect` of it, otherwise nothing changes; `ApplyAspectRatioToSelection` is proved equal to it and `UpkeepFits` keeps `Fits` |
| Preview.InitCrop | Batch-Cropper.py:687-718 | definition: the initial rectangle, the ratio applied, the drag fields reset; `InitCropRect` is proved equal to it and `UpkeepFits` makes `Fits` hold |
| Preview.Loaded | Batch-Cropper.py:520-535 | definition: the image set and refitted, a previous selection clipped or a new one initialised, the drag fields reset; `SetImage` is proved equal to it, and `LoadedFits` and `LoadedKeepsSelection` state its properties |
| Preview.DisplayPoint | Batch-Cropper.py:175-177 | definition: the panel point less the picture offsets |
| Preview.Pressed | Batch-Cropper.py:746-775 | definition: nothing without an image, otherwise `PressAt` the display point with the handle hit there; `OnLeftDown` is proved equal to it, and `PressedClassifies`, `PressedConsistent` and `PressedFits` state its properties |
| Preview.PressAt | Batch-Cropper.py:751-772 | definition: the resize, move, create and idle branches of a press in that priority order; `PreviewPanel.Press` is proved equal to it |
| Preview.CreateSelection | Batch-Cropper.py:313-315 | definition: the selection becomes `Geometry.CreateRect` from the anchor to the pointer; `UpdateSelectionCreation` is proved equal to it |
| Preview.MoveSelection | Batch-Cropper.py:317-324 | definition: nothing without a truthy original rectangle, otherwise the selection becomes `Geometry.MoveRect` of it; `UpdateSelectionMove` is proved equal to it |
| Preview.ResizeStep | Batch-Cropper.py:457-466 | definition: nothing without a truthy original rectangle or a handle, otherwise the selection becomes `Geometry.ResizeSelection` of it; `UpdateSelectionResize` is proved equal to it |
| Preview.Dragged | Batch-Cropper.py:777-794 | definition: only a left-button drag outside idle, with an image, creates, moves or resizes from the clamped pointer; `OnMouseMove` is proved equal to it, and `DraggedOnlySelection`, `PointerConsistent` and `DraggedFits` state its properties |
| Preview.Released | Batch-Cropper.py:796-809 | definition: the drag fields reset, and a selection being created normalised; `OnLeftUp` is proved equal to it, and `ReleasedSettles` and `ReleasedFits` state its properties |
| Preview.Consistent | Batch-Cropper.py:746-809 | definition: the invariant that a resize holds a resize handle and its start rectangle, a move holds `inside` and its start rectangle, and any other mode neither; `InitialConsistent`, `PressedConsistent`, `PointerConsistent` and `UpkeepConsistent` prove every handler keeps it |
| Preview.Fits | Batch-Cropper.py:262-268 | definition: the invariant that outside a creation, on a display of at least 4 by 4, the selection lies in the display and is at least 4 by 4, which `_ensure_min_size` gives; the `...Fits` lemmas prove every handler keeps or establishes it |
| Preview.PreviewPanel.constructor | Batch-Cropper.py:152-165 | the initial panel state |
| Preview.PreviewPanel.HitTestHandle | Batch-Cropper.py:221-225 | the loop returns the first handle whose square contains the point |
| Preview.PreviewPanel.UpdateDisplayGeometry | Batch-Cropper.py:537-547 | the new state is the fit for the panel size, and nothing without an image |
| Preview.PreviewPanel.RescaleCropRect | Batch-Cropper.py:829-844 | the new state is the rescaled selection, and nothing without a selection or from a zero display |
| Preview.PreviewPanel.OnSize | Batch-Cropper.py:549-556 | the old display is remembered, the geometry refitted and the selection rescaled |
| Preview.PreviewPanel.ApplyAspectRatioToSelection | Batch-Cropper.py:489-518 | the selection gets the lock ratio under its guards |
| Preview.PreviewPanel.InitCropRect | Batch-Cropper.py:687-718 | the initial selection with the ratio applied, and the drag state cleared |
| Preview.PreviewPanel.SetImage | Batch-Cropper.py:520-535 | the image is set and refitted, the previous selection clipped or a new one initialised, and the drag state cleared |
| Preview.PreviewPanel.OnLeftDown | Batch-Cropper.py:746-775 | the new state is the pointer-down transition |
| Preview.PreviewPanel.Press | Batch-Cropper.py:751-772 | the state after the handle, move, create or idle branch of a press at a given point |
| Preview.PreviewPanel.UpdateSelectionCreation | Batch-Cropper.py:313-315 | the selection becomes the rectangle created from the anchor to the pointer |
| Preview.PreviewPanel.UpdateSelectionMove | Batch-Cropper.py:317-324 | the selection is the moved original rectangle |
| Preview.PreviewPanel.UpdateSelectionResize | Batch-Cropper.py:457-466 | the selection is the resized original rectangle |
| Preview.PreviewPanel.OnMouseMove | Batch-Cropper.py:777-794 | the new state is the drag transition |
| Preview.PreviewPanel.OnLeftUp | Batch-Cropper.py:796-809 | the new state is the pointer-up transition |
| Preview.InitialConsistent | Batch-Cropper.py:152-165 | the initial state is consistent and satisfies `Fits` |
| Preview.PressedClassifies | Batch-Cropper.py:746-775 | pointer-down with an image: a handle hit → resizing with the original rectangle; else inside → moving; else in the display → creating at the clamped anchor with a 0×0 selection; else → idle |
| Preview.NoImageNoEffect | Batch-Cropper.py:746-794 | without an image, pointer-down, drags and refits change nothing |
| Preview.ReleasedSettles | Batch-Cropper.py:796-809 | pointer-up always sets idle and clears the handle and the original rectangle; after creating, it normalises the selection |
| Preview.DraggedOnlySelection | Batch-Cropper.py:777-794 | a drag changes only the selection, and nothing while idle or not dragging |
| Preview.PressedConsistent | Batch-Cropper.py:746-775 | pointer-down keeps the mode, handle and original rectangle consistent |
| Preview.PointerConsistent | Batch-Cropper.py:777-809 | drags and pointer-up keep them consistent |
| Preview.UpkeepConsistent | Batch-Cropper.py:489-556 | loading, initialising, resizing and ratio changes keep them consistent |
| Preview.ResizedKeepsDrag | Batch-Cropper.py:549-556 | a panel resize leaves the drag state alone and remembers the old display |
| Preview.PressedFits | Batch-Cropper.py:746-775 | pointer-down outside a creation keeps the selection valid when the display is large enough |
| Preview.DraggedFits | Batch-Cropper.py:777-794 | drags keep it valid |
| Preview.ReleasedFits | Batch-Cropper.py:796-809 | pointer-up makes it valid |
| Preview.LoadedFits | Batch-Cropper.py:520-535 | loading makes it valid |
| Preview.UpkeepFits | Batch-Cropper.py:489-518 | applying a ratio keeps it valid, and initialising makes it valid |
| Preview.ResizedFits | Batch-Cropper.py:549-556 | a panel resize from a non-empty display keeps it valid |
| Preview.ResizedFromEmptyDisplay | Batch-Cropper.py:829-831 | a panel resize from a zero display keeps the selection unchanged |
| Preview.LoadedKeepsSelection | Batch-Cropper.py:520-535 | loading refits, clips the previous selection, or creates one when there was none |
| Preview.CreateByDrag | Batch-Cropper.py:746-809 | pressing in the display away from the selection and its handles (or with no selection), dragging and releasing creates exactly `_create_rect(anchor, clamped pointer)` |
| Preview.CreatingDrag | Batch-Cropper.py:777-785 | a drag while creating sets the selection to the created rectangle |
| Preview.MoveByDrag | Batch-Cropper.py:746-794 | pressing inside a valid selection and dragging gives `_update_selection_move` of the press and the clamped pointer, which keeps the size |
| Controls.ValidatedBox | Batch-Cropper.py:1004-1016 | not an integer exactly when some field fails to parse; valid exactly when all four parse with `xe > xs` and `ye > ys`, with those values |
| Controls.LockedEdit | Batch-Cropper.py:962-977 | the edit fails exactly on an end edit whose divisor term is zero |
| Controls.Drift | Batch-Cropper.py:979-980 | the drift test fails exactly on a zero height or `H` term |
| Controls.ShownRect | Batch-Cropper.py:986-994 | definition: each typed corner scaled by display over image size and rounded, as the rectangle from the start corner to the end corner; `ShownBoxIsSelection` and `UnlockedEntry` state what it gives back |
| Controls.ApplyLock | Batch-Cropper.py:961-980 | unlocked, the typed box passes unchanged; locked with a ratio that does not parse, an error is raised; with one that parses, the step is `RatioLock`; the lock survives only if it was on |
| Controls.RatioLock | Batch-Cropper.py:962-980 | with a parsed ratio, an error is raised exactly when the locked edit or the drift test divides by zero; otherwise the box is the locked edit and the lock stays on exactly when the width-to-height ratio is within 0.01 of `wr / hr`; a raise keeps the lock |
| Controls.LockedStep | Batch-Cropper.py:961-963 | locked with a ratio text that parses, the step is `RatioLock` of the parsed values |
| Controls.UnparsedLockRaises | Batch-Cropper.py:963 | locked with a ratio text that does not parse, an error is raised and the box and the lock are kept |
| Controls.ShownBefore | Batch-Cropper.py:955-959 | the old box is the shown selection's corners, whose start is below its end, or the typed box when there is no selection |
| Controls.CoordEnter | Batch-Cropper.py:946-1002 | an invalid box changes nothing; a raised error keeps the selection; the lock is never turned on; a success needs a selection and an image and gives a valid selection |
| Controls.StartEditTranslates | Batch-Cropper.py:964-971 | editing `xs` or `ys` translates the box and keeps its size |
| Controls.EndEditKeepsLock | Batch-Cropper.py:972-980 | editing `xe` or `ye` under a positive ratio recomputes the other end, so the lock is not cleared |
| Controls.UnlockedIgnoresText | Batch-Cropper.py:961 | without the lock the ratio text plays no part |
| Controls.EnterShownBox | Batch-Cropper.py:946-1002 | entering the box shown for a selection, on a whole-multiple image without the lock, gives the selection back |
| Controls.ShownBoxIsSelection | Batch-Cropper.py:986-995 | on a whole-multiple image, the source box of a selection maps back to that selection |
| Controls.PrintedBoxValidates | Batch-Cropper.py:1004-1016 | a printed ordered box validates to itself |
| Controls.UnlockedEntry | Batch-Cropper.py:982-1000 | unlocked, the typed box maps straight to the display |
| Controls.LockedEntry | Batch-Cropper.py:946-1002 | locked with a parsed ratio, an entry raises and keeps the selection when `RatioLock` raises; otherwise the selection is the locked-edit box shown on the display, raised to the minimum size, and the lock is what `RatioLock` says |
| Controls.DriftClearsLock | Batch-Cropper.py:979-980 | when the locked edit exists and drifts by more than 0.01, the entry clears the lock |
| Controls.AspectToggled | Batch-Cropper.py:933-944 | the lock flag follows the checkbox; clearing it changes nothing else |
| Controls.AspectToggledFits | Batch-Cropper.py:933-944 | toggling the lock keeps the selection valid |
| Controls.ControlPanel.constructor | Batch-Cropper.py:875-931 | the initial lock state and text |
| Controls.ControlPanel.OnAspectToggle | Batch-Cropper.py:933-944 | the preview takes the toggled state, and the fields then show its box (unchanged when there is none); the lock and ratio text are kept |
| Controls.ControlPanel.OnCoordEnter | Batch-Cropper.py:946-1002 | the lock and selection take the entry's result; after an entry that went through the fields show the new selection's box, otherwise they are unchanged; the ratio text is kept |
| Controls.ControlPanel.UpdateControls | Batch-Cropper.py:816-827 | the fields show the four coordinates of the current crop box, or stay as they were when there is no box; the lock and ratio text are kept |
| Controls.ControlPanel.Shows | Batch-Cropper.py:824-827 | definition: the four fields hold `str()` of the box's coordinates when there is a box, otherwise the given texts; `UpdateControls`, `OnCoordEnter` and `OnAspectToggle` end in it |
| Session.FirstIndex | Batch-Cropper.py:1267 | `list.index`: the first position of the value |
| Session.FirstIndexDistinct | Batch-Cropper.py:1267 | in a list without repeats, that position is the entry's own |
| Session.Pushed | Batch-Cropper.py:1390-1399 | the last entry is the pushed snapshot, and the length stays at most 10 |
| Session.PushedEvicts | Batch-Cropper.py:1396-1399 | below the bound nothing is evicted; at the bound exactly the oldest entry is |
| Session.Reverted | Batch-Cropper.py:1358-1388 | fewer than 2 entries change nothing; otherwise the last entry is popped and the session becomes the new last entry |
| Session.RevertUndoesPush | Batch-Cropper.py:1358-1399 | a revert right after a push that evicted nothing restores the history and the session |
| Session.PushedAll | Batch-Cropper.py:1390-1399 | `PushHistory` applied to each snapshot in turn: the bound is kept and the last snapshot pushed ends the history; `PushedAllBelowBound` states it appends below the bound |
| Session.RevertedTimes | Batch-Cropper.py:1358-1388 | `OnRevertAll` applied `n` times never lengthens the history; `RevertedTimesPops` states what it pops |
| Session.PushedAllBelowBound | Batch-Cropper.py:1390-1399 | pushes that keep the history within `MAX_HISTORY` append the snapshots unchanged |
| Session.PushedAllFromEmpty | Batch-Cropper.py:1390-1399 | at most `MAX_HISTORY` pushes into an empty history give exactly the snapshots pushed |
| Session.RevertedTimesPops | Batch-Cropper.py:1358-1388 | from a frame whose session is its last entry, `n` reverts, fewer than the entries, pop the last `n` and restore the entry then last |
| Session.RevertsToFirst | Batch-Cropper.py:1358-1388 | from a frame whose session is its last entry, one revert fewer than the entries leaves exactly the first entry, as the session |
| Session.RevertsUndoPushes | Batch-Cropper.py:1358-1399 | after `k + 1` pushes into an empty history, `k` reverts restore the first pushed snapshot, and yet another revert changes nothing |
| Session.RevertedSelection | Batch-Cropper.py:1385-1386 | the selection after a revert lies in range, and is kept when it already was |
| Session.BcFiles | Batch-Cropper.py:1368-1382 | the chosen paths are no more than the paths scanned |
| Session.BcFilesMembers | Batch-Cropper.py:1368-1382 | exactly the paths with a `_bc` root that were not in the excluded list |
| Session.CollectBcFiles | Batch-Cropper.py:1368-1382 | the loop computes `BcFiles` |
| Session.RevertedCoherent | Batch-Cropper.py:1358-1388 | a revert keeps the session invariant |
| Session.Rebuilt | Batch-Cropper.py:1227-1271 | the three new lists have one length, no longer than the input |
| Session.Kept | Batch-Cropper.py:1227-1271 | the kept positions lie below `n` |
| Session.KeptIncreasing | Batch-Cropper.py:1227-1271 | the kept positions strictly increase |
| Session.KeptMembers | Batch-Cropper.py:1227-1271 | a position is kept exactly when its document is transformed |
| Session.RebuiltKeepsSuccesses | Batch-Cropper.py:1227-1271 | the new lists hold exactly the successful documents, in order: suffixed path, new image, and the flag of the path's first occurrence (or `True` on reduction) |
| Session.SuccessStep | Batch-Cropper.py:1263-1267 | one success appends one entry |
| Session.KeptAll | Batch-Cropper.py:1227-1271 | when all succeed, every position is kept |
| Session.RebuiltAllSucceed | Batch-Cropper.py:1227-1271 | when all succeed the order and length are kept, every path is suffixed, and without repeated paths each document keeps its own flag |
| Session.RebuiltNoneSucceed | Batch-Cropper.py:1227-1271 | when none succeeds the new lists are empty |
| Session.Replaced | Batch-Cropper.py:1273-1280 | empty new lists change nothing; otherwise they become the session and are pushed |
| Session.Trimmed | Batch-Cropper.py:1217-1222 | without a valid box nothing happens; with one, every document is cropped to that box |
| Session.Reduced | Batch-Cropper.py:1285-1295 | without documents, or with any non-PNG document, nothing happens |
| Session.CheckAllPng | Batch-Cropper.py:1291-1294 | the scan answers exactly whether every path has a `.png` extension, in any case |
| Session.RebuiltReducedFlags | Batch-Cropper.py:1314 | colour reduction flags every document |
| Session.NoSuccessNoChange | Batch-Cropper.py:1273-1318 | when every crop to the box and every reduction fails, neither transform changes anything or pushes |
| Session.TrimCanRepeatPaths | Batch-Cropper.py:1227-1271 | trimming a document together with its `_bc` copy leaves the session coherent but with both documents on one `_bc` path, although the paths were distinct before |
| Session.RebuiltPair | Batch-Cropper.py:1227-1271 | two documents that both transform give their two `_bc` paths in order |
| Session.ReducedFlagsAll | Batch-Cropper.py:1285-1327 | a reduction that did something pushes a session whose documents are all flagged and all have a `_bc` root |
| Session.ReplacedCoherent | Batch-Cropper.py:1273-1280 | a batch transform keeps the session invariant |
| Session.CollectAdded | Batch-Cropper.py:1158-1168 | the loop over the candidates computes `AddAll` |
| Session.AddOne | Batch-Cropper.py:1159-1168 | definition: a candidate with an image extension, not yet loaded and that opens is appended unreduced, otherwise nothing changes; `AddCandidate` states the step |
| Session.AddAll | Batch-Cropper.py:1158-1168 | definition: the candidates taken in order through `AddOne`; `CollectAdded` computes it and `AddAllExtends` states what it keeps and adds |
| Session.AddCandidate | Batch-Cropper.py:1159-1168 | one pass of the loop: the candidate is appended, unreduced, exactly when it has an image extension, is new and opens |
| Session.AddAllExtends | Batch-Cropper.py:1158-1168 | adding keeps the old documents as a prefix and the lists aligned; each new path is an image path taken from the candidates, unreduced, and repeats no earlier path; a session free of repeated paths stays so |
| Session.FilesAdded | Batch-Cropper.py:1158-1173 | when there are documents afterwards, the history is the single current snapshot and the first document is selected; otherwise only the lists change |
| Session.FilesAddedCoherent | Batch-Cropper.py:1158-1173 | adding files keeps the session invariant, and a session free of repeated paths stays so |
| Session.Imported | Batch-Cropper.py:1102-1119 | an import is appended unreduced, the history is the single current snapshot, and the new document is selected |
| Session.ImportedCoherent | Batch-Cropper.py:1102-1119 | an import keeps the session invariant |
| Session.Cleared | Batch-Cropper.py:1401-1408 | no documents, no history, and the state is coherent |
| Session.MainFrame.constructor | Batch-Cropper.py:1032-1036 | empty lists, empty history, selection -1 |
| Session.MainFrame.PushHistory | Batch-Cropper.py:1390-1399 | the history becomes `Pushed`, and the lists are unchanged |
| Session.MainFrame.OnRevertAll | Batch-Cropper.py:1358-1388 | the new state is `Reverted`, and the returned paths to delete and to rewrite are the `BcFiles` sets |
| Session.Rebuild | Batch-Cropper.py:1227-1271 | the loop builds `Rebuilt` |
| Session.MainFrame.Replace | Batch-Cropper.py:1273-1280 | the new state is `Replaced` and stays coherent |
| Session.MainFrame.OnTrimAll | Batch-Cropper.py:1217-1281 | the new state is `Trimmed` with the box validated from the control panel's four fields, and stays coherent |
| Session.MainFrame.OnPngReduce | Batch-Cropper.py:1285-1327 | the new state is `Reduced` and stays coherent |
| Session.MainFrame.AddFiles | Batch-Cropper.py:1158-1173 | the new state is `FilesAdded` and stays coherent; paths free of repeats stay so |
| Session.MainFrame.Import | Batch-Cropper.py:1091-1119 | nothing without a capture; with one, a first free counter exists, and the capture is imported exactly when saving under that counter's candidate succeeds, under that path; otherwise nothing changes; the state is `Imported` |
| Session.MainFrame.OnClearAll | Batch-Cropper.py:1401-1420 | the state is `Cleared`, the preview image and selection are emptied and the rest of the preview is kept, the coordinate fields are blanked, and the lock and ratio text are kept |

## Left out

- Rendering, cursors and caches are left out because they are drawing code. This covers `OnPaint`, `_render_to_dc`, `_ensure_cached_bitmap`, `RenderToBitmap`, `_update_cursor`, `OnMouseLeave` and the thumbnail panel.
- The clipboard and screen capture are not modelled. `_get_clipboard_image`, `CopyOriginalToClipboard`, `pil_to_wx_image` and `ImageGrab` become the `captured` parameter of `Session.MainFrame.Import`.
- PIL pixel work (crop, codec options, quantize, open, save, reopen) is not modelled. It becomes the partial functions `crop`, `reduce` and `open` and the `saved` predicate.
- File-system effects are not modelled. `resolve_import_dir` becomes the `dir` parameter. For `os.remove` and the rewrite in `OnRevertAll`, only the lists of paths to delete and to rewrite are computed.
- Window layout and dialogs are left out: `MainFrame.__init__` layout, `OnFrameResize`, `OnMouseWheelResize`, `wx.MessageBox`, `UpdateUI` and `OnSelectThumbnail`. The session methods therefore do not push the selected image into the preview; that is `UpdateUI`'s job.
- Preview.PreviewPanel: `UpdateControls` is modelled as `Controls.ControlPanel.UpdateControls`, called by the control panel's handlers. The calls the preview's own pointer, resize and image handlers make to it are left out, because the preview has no reference to the control panel in this model; after those handlers the fields are not refreshed.
- Logging and the clock are left out. `datetime.now()` becomes the `stamp` parameter.
- Floating point is modelled as exact real arithmetic, so IEEE rounding error is not captured.
- `int()` and `float()` text parsing covers an ASCII subset: surrounding whitespace, a sign, digits and a decimal fraction. Exponents, `inf`/`nan`, underscores and non-ASCII digits are rejected.
- Integer overflow does not arise in Python and is not modelled.
- Text.Lower: only ASCII capitals are lowered. Python's `lower()` follows Unicode, lowers other capitals too and can change the length of a text (`'İ'` becomes two characters), so extensions with non-ASCII capitals are not matched as the source matches them.
- Text.LowerChars: the same ASCII restriction as `Text.Lower`.
- Text.IsSpace: only the six ASCII whitespace characters are stripped. Python's `int()` and `float()` also strip `\x1c` to `\x1f`, `\x85` and the Unicode spaces such as U+3000, which the model treats as malformed input.
- Images have positive sides (`Pos`). A zero-size image would make the fit divide by zero in the original.
- Controls.CoordEnter: as in the source, clearing the lock checkbox on drift does not update the preview's lock flag, because setting the value programmatically does not fire the checkbox event.
- Preview.PressedFits: it excludes a press during a creation. A press that starts a creation places a 0×0 selection, which `Fits` does not cover until pointer-up normalises it.
- Preview.ResizedFits: it assumes a non-zero old display. From a zero display the selection is kept unscaled (see `Preview.ResizedFromEmptyDisplay`).
- Geometry.CreateWithRatio, Geometry.RatioExtents, Geometry.FromHorizontalAnchor, Geometry.FromVerticalAnchor, Geometry.ResizeCorner, Geometry.ResizeWithRatio: the ratio is followed only up to the rounding of one side (`Geometry.FitFollowsRatio`), and only for results no clamp touched (`Geometry.CreateRectFollows`, `Geometry.ResizeWithRatioFollows`). A promise of `|w / h - r| < 0.02` does not hold: the raise to the minimum side 4 overrides the ratio (`Geometry.MinimumOverridesRatio`), and rounding a small side moves the quotient further (a width of 20 at 16:9 gives a height of 11, and 20 / 11 is about 1.82 against 1.78).
- Geometry.Rescale: its contract states only that the result is valid on a display of at least 4 by 4; nothing is stated about the lock ratio or the selected region for a general factor. As in `RescaleCropRect`, each axis is scaled on its own, by `display_w / old_display_w` and `display_h / old_display_h`. The display sides are `int()` truncations of the image sides times the fit scale, so the two factors usually differ slightly, and the ratio is kept only up to that drift, the rounding of every coordinate and the raise to 4. Whole factors are covered exactly (`Geometry.ScaleByWhole`, `Geometry.RescaleSameDisplay`, `Geometry.RescaleDoubles`).
- Mapping.RoundTripNear: it covers images at least as large as the display on both axes. For a smaller image the scale exceeds 1 and one source pixel spans several display pixels, so the round trip can move further.
- Geometry.FitToDisplayFollows: it states the ratio up to the rounding of one side, not an exact equality, because the source rounds.
- Session.ReducedFlagsAll: it is stated for a reduction that changed the state. A reduction whose result happens to equal the old state is covered by `Session.Replaced` instead.
- `OnPngReduce` in the source checks `self.file_paths`; `zip` then pairs paths and images. The model relies on the three lists having one length, which every handler keeps (`Session.Coherent`).
