# ProgressActionButton in Dafny

A model of `ProgressActionButton`, an Android `TextView` subclass that draws
a rounded button in one of four states: idle (`STATE_INIT`), in progress
(`STATE_PROGRESS`, with a left-aligned fill proportional to `progress`),
success (`STATE_SUCCESS`) and failure (`STATE_FAIL`). Everything is in
`progress_action_button.dfy`, module `ProgressButton`.

- The view is the class `ProgressActionButton`. Its fields are `state`,
  `progress` and `buttonRadius`, which the setters and the draw routine
  overwrite, and the six drawable ids in `res`. The ids are a `const`
  because nothing reassigns them after the constructor. A ghost counter
  `redraws` records each `invalidate()` call the class itself makes.
- The drawable choices (`getBgBitmap`, `getFgBitmap`) are the functions
  `BgResource` and `FgResource`. A bitmap is modelled by the resource id it
  would be decoded from.
- `drawBackground` is the method `DrawBackground`. It is specified by the
  pure function `Draw`, which returns a `Frame`: the bounds, the corner
  radius, the background id, and the optional foreground id with the
  rectangle it fills. `Composite` models `drawRadiusBitmap` and
  `FillRect` models its fill rectangle.
- A view with zero width or height makes `Bitmap.createBitmap` throw
  `IllegalArgumentException` in `drawRadiusBitmap`. `Composite`, `Draw` and
  `DrawBackground` return `None` in that case. The radius has already been
  written back by then, so `DrawBackground` updates it either way.
- Java `int` arithmetic is explicit. The product `width * progress` wraps
  to 32 bits (`Int32`). The cast `(int)` of the quotient truncates toward
  zero (`DivToward0`). `buttonRadius`, a Java `float`, is a `real`.

Where a reader might expect otherwise, the model follows the code:
- the fill width is truncated, not rounded;
- `setFail` and `setSuccess` request no redraw;
- the clamped corner radius is written back into `buttonRadius`. Two
  consequences are proved. `RadiusAfterDrawsIsMinimum`: a positive radius
  only ever shrinks to the smallest half-height seen. `UnlaidDrawForgetsRadius`:
  a draw at height 1 succeeds but resets it to 0, so the next draw uses half
  of that draw's height and the configured radius is lost. (For a non-negative
  radius, a draw at height 0 also writes 0, but then throws.)

## Model

| member | source | states |
|---|---|---|
| `ProgressButton.ProgressActionButton.constructor` | src/main/java/com/trendit/progressactionbutton/ProgressActionButton.java:51-69 | a new button is in `STATE_INIT` with progress 0, the configured radius and ids, and a redraw counter of 0 (the counter tracks only this class's own `invalidate()` calls; `setLayerType` is not modelled) |
| `ProgressButton.ProgressActionButton.SetProgress` | src/main/java/com/trendit/progressactionbutton/ProgressActionButton.java:80-84 | any `p` is accepted unchecked: state becomes `STATE_PROGRESS`, progress becomes `p`, exactly one redraw is requested, the radius is kept |
| `ProgressButton.ProgressActionButton.SetFail` | src/main/java/com/trendit/progressactionbutton/ProgressActionButton.java:86-88 | state becomes `STATE_FAIL`; progress, radius and the redraw count are unchanged |
| `ProgressButton.ProgressActionButton.SetSuccess` | src/main/java/com/trendit/progressactionbutton/ProgressActionButton.java:90-92 | state becomes `STATE_SUCCESS`; progress, radius and the redraw count are unchanged |
| `ProgressButton.BgResource` | src/main/java/com/trendit/progressactionbutton/ProgressActionButton.java:147-164 | the background is always one of initBg, failBg, progressBg, successBg (never disableBg); each state gets its own, and an unknown code falls back to initBg |
| `ProgressButton.BackgroundIdentifiesState` | src/main/java/com/trendit/progressactionbutton/ProgressActionButton.java:147-164 | with distinct ids the background is never disableBg, and two valid states share a background if and only if they are equal |
| `ProgressButton.FgResource` | src/main/java/com/trendit/progressactionbutton/ProgressActionButton.java:166-176 | a foreground exists if and only if the state is `STATE_PROGRESS`, and it is then progressFg |
| `ProgressButton.ForegroundOnlyOverProgress` | src/main/java/com/trendit/progressactionbutton/ProgressActionButton.java:147-176 | whenever a foreground exists, the background is the progress background |
| `ProgressButton.Int32` | src/main/java/com/trendit/progressactionbutton/ProgressActionButton.java:140 | the `int` product lies in the 32-bit range, equals the exact product when that fits, and differs from it by a multiple of 2^32 |
| `ProgressButton.DivToward0` | src/main/java/com/trendit/progressactionbutton/ProgressActionButton.java:140 | the cast quotient has the sign of the dividend and is the largest multiple of the divisor toward zero |
| `ProgressButton.FillWidth` | src/main/java/com/trendit/progressactionbutton/ProgressActionButton.java:140 | while `width * progress` fits in an `int`, the fill width is that product divided by 100, truncated toward zero |
| `ProgressButton.FillWidthEnds` | src/main/java/com/trendit/progressactionbutton/ProgressActionButton.java:140 | for views up to 99 999 pixels wide, where the `float` path agrees with exact division: 0 % gives width 0 and 100 % gives the full width |
| `ProgressButton.FillWidthWithin` | src/main/java/com/trendit/progressactionbutton/ProgressActionButton.java:140 | for progress in 0..100 and views up to 99 999 pixels wide, the fill width lies between 0 and the view width |
| `ProgressButton.FillWidthMonotone` | src/main/java/com/trendit/progressactionbutton/ProgressActionButton.java:140 | for views up to 99 999 pixels wide, more progress (within 0..100) never gives a narrower fill |
| `ProgressButton.FillRect` | src/main/java/com/trendit/progressactionbutton/ProgressActionButton.java:140 | the fill keeps the bounds' left, top and bottom, its width is the fill width, and for progress in 0..100 and a width up to 99 999 it stays inside the bounds |
| `ProgressButton.EffectiveRadius` | src/main/java/com/trendit/progressactionbutton/ProgressActionButton.java:183-186 | the radius never exceeds half the height (integer division); a positive radius becomes the minimum of itself and that half, 0 becomes the half, a negative radius is kept |
| `ProgressButton.EffectiveRadiusIdempotent` | src/main/java/com/trendit/progressactionbutton/ProgressActionButton.java:183-186 | clamping a second time at the same height changes nothing |
| `ProgressButton.RadiusAfterDrawsIsMinimum` | src/main/java/com/trendit/progressactionbutton/ProgressActionButton.java:183-186 | after draws at heights of at least 2, a positive radius is the minimum of the configured radius and every half-height seen, so it stays positive and never grows back |
| `ProgressButton.RadiusAfterDraws` | src/main/java/com/trendit/progressactionbutton/ProgressActionButton.java:183-186 | the field value after a series of draws at the given heights, each applying the clamp to the previous value (no contract of its own; `RadiusAfterDrawsIsMinimum` and `UnlaidDrawForgetsRadius` state its properties) |
| `ProgressButton.UnlaidDrawForgetsRadius` | src/main/java/com/trendit/progressactionbutton/ProgressActionButton.java:183-186 | a draw at height 1 on a view of positive width succeeds and writes radius 0; a following draw at height h leaves the radius at h/2, whatever non-negative radius was configured |
| `ProgressButton.ProgressActionButton.ClampRadius` | src/main/java/com/trendit/progressactionbutton/ProgressActionButton.java:183-186 | the field is overwritten with the effective radius of its old value, and so is at most half the height |
| `ProgressButton.ProgressActionButton.DrawBackground` | src/main/java/com/trendit/progressactionbutton/ProgressActionButton.java:178-197 | the outcome is the one `Draw` gives for the current state, progress and old radius (`None` for a zero-size view, where the source throws); the clamped radius persists in the field even when the draw throws; state and progress are untouched; with distinct ids, a drawn frame shows the progress background if and only if the state is `STATE_PROGRESS` |
| `ProgressButton.Bounds` | src/main/java/com/trendit/progressactionbutton/ProgressActionButton.java:188-192 | the view's rectangle (0,0)-(w,h) (no contract of its own; `DrawInProgress` and `DrawOutsideProgress` state the bounds of the frame) |
| `ProgressButton.Composite` | src/main/java/com/trendit/progressactionbutton/ProgressActionButton.java:127-145 | the draw throws (`None`) exactly when the bounds have no width or no height; otherwise the frame has exactly the given bounds, radius and background, carries an overlay if and only if there is a foreground, and that overlay is the foreground id over `FillRect` of the bounds |
| `ProgressButton.Draw` | src/main/java/com/trendit/progressactionbutton/ProgressActionButton.java:178-197 | a draw fails exactly when the measured width or height is 0; the frame contents are stated by `DrawInProgress` and `DrawOutsideProgress` |
| `ProgressButton.DrawIdempotent` | src/main/java/com/trendit/progressactionbutton/ProgressActionButton.java:178-197 | drawing again with no change of state, progress or size yields the same outcome, although the first draw rewrote the radius (also when it threw) |
| `ProgressButton.DrawInProgress` | src/main/java/com/trendit/progressactionbutton/ProgressActionButton.java:178-197 | in the progress state with progress in 0..100 and a non-empty view up to 99 999 pixels wide: the draw succeeds with bounds (0,0)-(w,h), progress background, progress foreground over the left-aligned full-height strip of the fill width |
| `ProgressButton.DrawOutsideProgress` | src/main/java/com/trendit/progressactionbutton/ProgressActionButton.java:127-145 | outside the progress state, for a non-empty view: the draw succeeds with bounds (0,0)-(w,h), the state's background, and no foreground drawn |

## Left out

- The one-argument constructor (lines 47-49) skips `init`. Its fields keep Java's defaults: state 0 (`STATE_INIT`), every id 0, radius 0, and no text paint.
- Drawable decoding (`getBitmap`), the offscreen bitmap, the rounded-rectangle mask, `SRC_IN` compositing and the final `drawBitmap` are Android raster calls. A frame records only which ids and rectangles they receive.
- `drawTextAbove` (label placement) depends on float font metrics and is not modelled.
- `onDraw`, `drawing`, `isInEditMode`, `setLayerType`, the text paint and `TypedArray` attribute resolution are host-toolkit plumbing. `invalidate()` appears only as the ghost counter `redraws`.
- The `backgroundBounds` field written at line 192 is returned as `Frame.bounds` rather than kept as a field. Nothing reads it outside the same draw.
- The measured width and height are parameters of `DrawBackground`, taken as non-negative.
- FillWidth: the float division `/ 100.0f` is modelled as exact division. This is guaranteed to match the Java result while the wrapped `int` product is below 10^7 in absolute value. Beyond that, float rounding can move the quotient across an integer. The fill-width lemmas are therefore stated for views up to 99 999 pixels wide (`MAX_FLOAT_EXACT_WIDTH`).
- Drawable decoding in `getBitmap` (lines 116-125) can also fail, for example on a drawable with no intrinsic size. Those failures are not modelled.
- FillRect: `rect.left + width` is not wrapped to 32 bits. The only rectangle ever passed has left 0, and the width then stays far inside the `int` range.
- EffectiveRadius: `buttonRadius` is a `real`, so float rounding of dimension values is not modelled.
