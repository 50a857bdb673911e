/**
 * A model of ProgressActionButton, a text button that shows one of four
 * states (idle, in progress with a left-aligned percentage fill, success,
 * failure) by compositing state-dependent drawables inside a rounded mask.
 *
 * Drawables are modelled by their resource ids, and a composited frame by
 * the ids and rectangles that the draw routine would hand to the canvas.
 */
module ProgressButton {

  // ---------------------------------------------------------------------
  // Java integer arithmetic
  // ---------------------------------------------------------------------

  const INT_MIN: int := -0x8000_0000
  const INT_MAX: int := 0x7FFF_FFFF

  predicate InInt32(x: int) { INT_MIN <= x <= INT_MAX }

  /** Two's-complement wrap-around of a Java `int` operation. */
  function Int32(x: int): (r: int)
    ensures InInt32(r)
    ensures InInt32(x) ==> r == x
    ensures (x - r) % 0x1_0000_0000 == 0
  {
    (x - INT_MIN) % 0x1_0000_0000 + INT_MIN
  }

  /** Division followed by a cast to `int`, which truncates toward zero. */
  function DivToward0(x: int, d: int): (q: int)
    requires d > 0
    ensures 0 <= x ==> 0 <= q && q * d <= x < q * d + d
    ensures x <= 0 ==> q <= 0 && q * d - d < x <= q * d
  {
    if x >= 0 then x / d else -((-x) / d)
  }

  // ---------------------------------------------------------------------
  // States and resources
  // ---------------------------------------------------------------------

  const STATE_INIT: int := 0
  const STATE_PROGRESS: int := 1
  const STATE_SUCCESS: int := 2
  const STATE_FAIL: int := 3

  predicate IsState(s: int) {
    s == STATE_INIT || s == STATE_PROGRESS || s == STATE_SUCCESS || s == STATE_FAIL
  }

  datatype Option<+T> = None | Some(value: T)

  /** The six drawable ids read from the styled attributes at construction. */
  datatype Resources = Resources(
    initBg: int, failBg: int, successBg: int, disableBg: int,
    progressBg: int, progressFg: int)

  /** The five ids a caller would configure to tell the states apart. */
  predicate Distinct(res: Resources) {
    var ids := [res.initBg, res.failBg, res.successBg, res.disableBg, res.progressBg];
    forall i, j :: 0 <= i < j < |ids| ==> ids[i] != ids[j]
  }

  /**
   * The background drawable for a state (getBgBitmap). A code that is not
   * one of the four states keeps the switch's starting value, initBg; the
   * disabled background is never selected.
   */
  function BgResource(state: int, res: Resources): (id: int)
    ensures id in {res.initBg, res.failBg, res.progressBg, res.successBg}
    ensures state == STATE_INIT ==> id == res.initBg
    ensures state == STATE_FAIL ==> id == res.failBg
    ensures state == STATE_PROGRESS ==> id == res.progressBg
    ensures state == STATE_SUCCESS ==> id == res.successBg
    ensures !IsState(state) ==> id == res.initBg
  {
    if state == STATE_INIT then res.initBg
    else if state == STATE_FAIL then res.failBg
    else if state == STATE_PROGRESS then res.progressBg
    else if state == STATE_SUCCESS then res.successBg
    else res.initBg
  }

  /** The foreground drawable (getFgBitmap): the progress fill, or none. */
  function FgResource(state: int, res: Resources): (fg: Option<int>)
    ensures fg.Some? <==> state == STATE_PROGRESS
    ensures fg.Some? ==> fg.value == res.progressFg
  {
    if state == STATE_PROGRESS then Some(res.progressFg) else None
  }

  /**
   * With distinct ids, the background alone tells which of the four states
   * the button is in, and it is never the disabled background.
   */
  lemma BackgroundIdentifiesState(s: int, t: int, res: Resources)
    requires Distinct(res) && IsState(s) && IsState(t)
    ensures BgResource(s, res) != res.disableBg
    ensures BgResource(s, res) == BgResource(t, res) <==> s == t
  {
    var ids := [res.initBg, res.failBg, res.successBg, res.disableBg, res.progressBg];
    assert ids[0] != ids[1] && ids[0] != ids[2] && ids[0] != ids[3] && ids[0] != ids[4];
    assert ids[1] != ids[2] && ids[1] != ids[3] && ids[1] != ids[4];
    assert ids[2] != ids[3] && ids[2] != ids[4] && ids[3] != ids[4];
  }

  /** A foreground is only ever laid over the progress background. */
  lemma ForegroundOnlyOverProgress(s: int, res: Resources)
    ensures FgResource(s, res).Some? ==> BgResource(s, res) == res.progressBg
  {
  }

  // ---------------------------------------------------------------------
  // Geometry
  // ---------------------------------------------------------------------

  datatype Rect = Rect(left: int, top: int, right: int, bottom: int) {
    function Width(): int { right - left }
    function Height(): int { bottom - top }
  }

  /**
   * The widest view for which `width * 100` stays below 10^7. Up to there
   * the product is exact as a `float` and the quotient is below 2^17, so
   * the rounding of `/ 100.0f` (at most 2^-8) cannot carry it across an
   * integer: the `float` result truncates to the exact one.
   */
  const MAX_FLOAT_EXACT_WIDTH: int := 99_999

  /** The view's own bounds, (0, 0)-(measuredWidth, measuredHeight). */
  function Bounds(w: nat, h: nat): Rect
  {
    Rect(0, 0, w, h)
  }

  /**
   * Width of the progress fill: `(int) (width * progress / 100.0f)`, an
   * `int` product that may wrap, divided and truncated toward zero.
   */
  function FillWidth(w: int, p: int): (r: int)
    ensures InInt32(w * p) && 0 <= w * p ==> 0 <= r && r * 100 <= w * p < r * 100 + 100
    ensures InInt32(w * p) && w * p <= 0 ==> r <= 0 && r * 100 - 100 < w * p <= r * 100
  {
    DivToward0(Int32(w * p), 100)
  }

  lemma MulMonotone(w: int, p: int, q: int)
    requires 0 <= w && p <= q
    ensures w * p <= w * q
  {
  }

  /** No fill at 0 %, the whole width at 100 %. */
  lemma FillWidthEnds(w: int)
    requires 0 <= w <= MAX_FLOAT_EXACT_WIDTH
    ensures FillWidth(w, 0) == 0
    ensures FillWidth(w, 100) == w
  {
  }

  /** Between 0 % and 100 % the fill never leaves the view. */
  lemma FillWidthWithin(w: int, p: int)
    requires 0 <= w <= MAX_FLOAT_EXACT_WIDTH && 0 <= p <= 100
    ensures 0 <= FillWidth(w, p) <= w
  {
    MulMonotone(w, 0, p);
    MulMonotone(w, p, 100);
  }

  /** More progress never shrinks the fill. */
  lemma FillWidthMonotone(w: int, p: int, q: int)
    requires 0 <= w <= MAX_FLOAT_EXACT_WIDTH && 0 <= p <= q <= 100
    ensures FillWidth(w, p) <= FillWidth(w, q)
  {
    MulMonotone(w, 0, p);
    MulMonotone(w, p, q);
    MulMonotone(w, q, 100);
  }

  /**
   * The fill rectangle of drawRadiusBitmap: same left, top and bottom as
   * the bounds, and the truncated share of their width.
   */
  function FillRect(rect: Rect, p: int): (r: Rect)
    ensures r.left == rect.left && r.top == rect.top && r.bottom == rect.bottom
    ensures r.Width() == FillWidth(rect.Width(), p)
    ensures 0 <= rect.Width() <= MAX_FLOAT_EXACT_WIDTH && 0 <= p <= 100 ==>
              rect.left <= r.right <= rect.right
  {
    var r := Rect(rect.left, rect.top, rect.left + FillWidth(rect.Width(), p), rect.bottom);
    assert 0 <= rect.Width() <= MAX_FLOAT_EXACT_WIDTH && 0 <= p <= 100 ==> rect.left <= r.right <= rect.right by {
      if 0 <= rect.Width() <= MAX_FLOAT_EXACT_WIDTH && 0 <= p <= 100 {
        FillWidthWithin(rect.Width(), p);
      }
    }
    r
  }

  // ---------------------------------------------------------------------
  // Corner radius
  // ---------------------------------------------------------------------

  function Min(a: real, b: real): real { if a <= b then a else b }

  /**
   * The radius drawBackground leaves in the field for a view of height h:
   * half the height (integer division) when the radius is 0 or larger
   * than that, otherwise the radius itself.
   */
  function EffectiveRadius(r: real, h: nat): (e: real)
    ensures e <= (h / 2) as real
    ensures r > 0.0 ==> e == Min(r, (h / 2) as real)
    ensures r == 0.0 ==> e == (h / 2) as real
    ensures r < 0.0 ==> e == r
  {
    var half := (h / 2) as real;
    if r == 0.0 || r > half then half else r
  }

  /** Clamping again at the same height changes nothing. */
  lemma EffectiveRadiusIdempotent(r: real, h: nat)
    ensures EffectiveRadius(EffectiveRadius(r, h), h) == EffectiveRadius(r, h)
  {
  }

  /** The radius field after drawing at each of the heights in turn. */
  function RadiusAfterDraws(r: real, hs: seq<nat>): real
    decreases hs
  {
    if hs == [] then r else RadiusAfterDraws(EffectiveRadius(r, hs[0]), hs[1..])
  }

  /** The smallest half-height among hs, or r when hs is empty. */
  function MinHalf(r: real, hs: seq<nat>): real
    decreases hs
  {
    if hs == [] then r else MinHalf(Min(r, (hs[0] / 2) as real), hs[1..])
  }

  /**
   * Because the clamp is written back into the field, a positive radius
   * after a series of laid-out draws is the minimum of the configured
   * radius and every half-height seen so far: it never grows back.
   */
  lemma {:induction false} RadiusAfterDrawsIsMinimum(r: real, hs: seq<nat>)
    requires r > 0.0
    requires forall i :: 0 <= i < |hs| ==> hs[i] >= 2
    ensures RadiusAfterDraws(r, hs) == MinHalf(r, hs)
    ensures 0.0 < RadiusAfterDraws(r, hs) <= r
    decreases hs
  {
    if hs != [] {
      var e := EffectiveRadius(r, hs[0]);
      assert e == Min(r, (hs[0] / 2) as real) && e > 0.0;
      RadiusAfterDrawsIsMinimum(e, hs[1..]);
    }
  }

  /**
   * A draw at height 1 succeeds (its bitmap is not empty) but sets the
   * radius to 0, so the next draw uses half of that draw's height, whatever
   * radius was configured.
   */
  lemma UnlaidDrawForgetsRadius(state: int, p: int, r: real, res: Resources, w: nat, h: nat)
    requires r >= 0.0 && w > 0
    ensures Draw(state, p, r, res, w, 1).Some?
    ensures Draw(state, p, r, res, w, 1).value.radius == 0.0
    ensures RadiusAfterDraws(r, [1, h]) == (h / 2) as real
  {
    var h0 := 1;
    var e := EffectiveRadius(r, h0);
    assert e == 0.0;
    assert [h0, h][1..] == [h] && [h][1..] == [];
    assert RadiusAfterDraws(r, [h0, h]) == RadiusAfterDraws(e, [h]);
    assert RadiusAfterDraws(e, [h]) == RadiusAfterDraws(EffectiveRadius(e, h), []);
  }

  // ---------------------------------------------------------------------
  // One frame
  // ---------------------------------------------------------------------

  /** The progress drawable and the part of the view it covers. */
  datatype Overlay = Overlay(resource: int, area: Rect)

  /** What one draw puts on the canvas, before the label text. */
  datatype Frame = Frame(bounds: Rect, radius: real, background: int, overlay: Option<Overlay>)

  /**
   * drawRadiusBitmap: the background fills the masked bounds; a foreground,
   * when there is one, is drawn into the fill rectangle. None stands for the
   * IllegalArgumentException that creating an empty offscreen bitmap throws.
   */
  function Composite(bg: int, fg: Option<int>, rect: Rect, radius: real, progress: int): (f: Option<Frame>)
    ensures f.None? <==> rect.right - rect.left <= 0 || rect.bottom - rect.top <= 0
    ensures f.Some? ==> f.value.bounds == rect && f.value.radius == radius && f.value.background == bg
    ensures f.Some? ==> (f.value.overlay.Some? <==> fg.Some?)
    ensures f.Some? && f.value.overlay.Some? ==>
              f.value.overlay.value.resource == fg.value && f.value.overlay.value.area == FillRect(rect, progress)
  {
    if rect.right - rect.left <= 0 || rect.bottom - rect.top <= 0 then None
    else Some(Frame(rect, radius, bg,
                    if fg.Some? then Some(Overlay(fg.value, FillRect(rect, progress))) else None))
  }

  /**
   * The frame drawBackground produces from the fields and the measured size,
   * or None when the view has no area and the draw throws (after the radius
   * has been written back).
   */
  function Draw(state: int, progress: int, radius: real, res: Resources, w: nat, h: nat): (f: Option<Frame>)
    ensures f.None? <==> w == 0 || h == 0
  {
    Composite(BgResource(state, res), FgResource(state, res), Bounds(w, h),
              EffectiveRadius(radius, h), progress)
  }

  /**
   * Drawing again with no change of state, progress or size gives the same
   * outcome, even though the first draw rewrote the radius (also when it
   * threw).
   */
  lemma DrawIdempotent(state: int, progress: int, r: real, res: Resources, w: nat, h: nat)
    ensures Draw(state, progress, EffectiveRadius(r, h), res, w, h) == Draw(state, progress, r, res, w, h)
  {
  }

  /**
   * In the progress state with 0 <= p <= 100 the frame shows the progress
   * background, and over it the progress foreground in a left-aligned,
   * full-height strip of the truncated share of the width.
   */
  lemma DrawInProgress(p: int, r: real, res: Resources, w: nat, h: nat)
    requires 0 <= p <= 100 && 0 < w <= MAX_FLOAT_EXACT_WIDTH && 0 < h
    ensures Draw(STATE_PROGRESS, p, r, res, w, h).Some?
    ensures var f := Draw(STATE_PROGRESS, p, r, res, w, h).value;
            && f.bounds == Rect(0, 0, w, h)
            && f.background == res.progressBg
            && f.overlay == Some(Overlay(res.progressFg, Rect(0, 0, FillWidth(w, p), h)))
            && 0 <= FillWidth(w, p) <= w
  {
    var rect := Bounds(w, h);
    assert rect.Width() == w;
    FillWidthWithin(w, p);
    assert FillRect(rect, p) == Rect(0, 0, FillWidth(w, p), h);
  }

  /** Outside the progress state nothing is drawn over the background. */
  lemma DrawOutsideProgress(state: int, p: int, r: real, res: Resources, w: nat, h: nat)
    requires state != STATE_PROGRESS && 0 < w && 0 < h
    ensures Draw(state, p, r, res, w, h).Some?
    ensures var f := Draw(state, p, r, res, w, h).value;
            && f.bounds == Rect(0, 0, w, h)
            && f.background == BgResource(state, res)
            && f.overlay == None
  {
  }

  // ---------------------------------------------------------------------
  // The view
  // ---------------------------------------------------------------------

  class ProgressActionButton {
    const res: Resources
    var buttonRadius: real
    var state: int
    var progress: int
    /** Redraws requested by this class's own invalidate() calls. */
    ghost var redraws: nat

    /** State is always one of the four codes; DrawBackground relies on it to tell the progress background apart. */
    ghost predicate Valid()
      reads this
    {
      IsState(state)
    }

    /** The two-argument constructor, after the styled attributes are resolved. */
    constructor (radius: real, res: Resources)
      ensures Valid()
      ensures state == STATE_INIT && progress == 0
      ensures buttonRadius == radius && this.res == res && redraws == 0
    {
      this.res := res;
      buttonRadius := radius;
      state := STATE_INIT;
      progress := 0;
      redraws := 0;
    }

    /** Enters the progress state with p, unchecked, and requests a redraw. */
    method SetProgress(p: int)
      requires Valid()
      modifies this
      ensures Valid()
      ensures state == STATE_PROGRESS && progress == p
      ensures redraws == old(redraws) + 1
      ensures buttonRadius == old(buttonRadius)
    {
      state := STATE_PROGRESS;
      progress := p;
      redraws := redraws + 1;
    }

    /** Enters the fail state; no redraw is requested. */
    method SetFail()
      requires Valid()
      modifies this
      ensures Valid()
      ensures state == STATE_FAIL
      ensures progress == old(progress) && buttonRadius == old(buttonRadius)
      ensures redraws == old(redraws)
    {
      state := STATE_FAIL;
    }

    /** Enters the success state; no redraw is requested. */
    method SetSuccess()
      requires Valid()
      modifies this
      ensures Valid()
      ensures state == STATE_SUCCESS
      ensures progress == old(progress) && buttonRadius == old(buttonRadius)
      ensures redraws == old(redraws)
    {
      state := STATE_SUCCESS;
    }

    /** The clamp at the start of drawBackground, written back into the field. */
    method ClampRadius(h: nat)
      modifies this`buttonRadius
      ensures buttonRadius == EffectiveRadius(old(buttonRadius), h)
      ensures buttonRadius <= (h / 2) as real
    {
      var radius := (h / 2) as real;
      if buttonRadius == 0.0 || buttonRadius > radius {
        buttonRadius := radius;
      }
    }

    /**
     * drawBackground for a view measured w by h: selects the drawables,
     * clamps the radius in place and composites the frame; None when the
     * view has no area and the draw throws after the radius is written.
     */
    method DrawBackground(w: nat, h: nat) returns (f: Option<Frame>)
      requires Valid()
      modifies this`buttonRadius
      ensures Valid()
      ensures f == Draw(state, progress, old(buttonRadius), res, w, h)
      ensures buttonRadius == EffectiveRadius(old(buttonRadius), h)
      ensures f.Some? ==> buttonRadius == f.value.radius
      ensures Distinct(res) && f.Some? ==> (f.value.background == res.progressBg <==> state == STATE_PROGRESS)
    {
      var fg := FgResource(state, res);
      var bg := BgResource(state, res);
      ClampRadius(h);
      var rect := Bounds(w, h);
      f := Composite(bg, fg, rect, buttonRadius, progress);
      if Distinct(res) {
        BackgroundIdentifiesState(state, STATE_PROGRESS, res);
      }
    }
  }

  /** A host that sets progress, draws, then reports success and draws again. */
  method ProgressThenSuccess(res: Resources)
  {
    var b := new ProgressActionButton(12.0, res);
    b.SetProgress(50);
    var f := b.DrawBackground(200, 80);
    assert f.value.background == res.progressBg && f.value.radius == 12.0;
    assert f.value.overlay == Some(Overlay(res.progressFg, Rect(0, 0, 100, 80)));
    b.SetSuccess();
    f := b.DrawBackground(200, 80);
    assert f.value.background == res.successBg && f.value.overlay == None;
    f := b.DrawBackground(200, 0);
    assert f == None && b.buttonRadius == 0.0;
  }
}
