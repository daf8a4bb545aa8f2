/**
 * `RenderEngine` of render_engine.py: chooses the render scale and stroke
 * width for a pattern, hands the scaled pattern to the PNG writer, decodes
 * the result and keys its white background to transparent, and falls back
 * to a background-filled placeholder whenever there is nothing to draw or
 * something fails.
 */
module RenderEngine {
  import opened Wrappers
  import opened Geometry
  import opened Pattern
  import opened Raster

  // Constants of render_engine.py and config.py.
  const MinTargetPixels: int := 2000
  const MinScale: real := 2.0
  const MaxScale: real := 60.0
  const InitialRenderScale: real := 8.0
  const LineWidthFactor: real := 0.8
  const MinLineWidth: int := 2
  /** `config.DEFAULT_BACKGROUND_COLOR`, `#E0E0E0`. */
  const DefaultBackground := Pixel(0xE0, 0xE0, 0xE0, 255)

  function MaxInt(a: int, b: int): int { if a >= b then a else b }
  function MinReal(a: real, b: real): real { if a <= b then a else b }
  function MaxReal(a: real, b: real): real { if a >= b then a else b }

  /** Python's `int(x)`: truncation toward zero. */
  function Trunc(x: real): (r: int)
    ensures x >= 0.0 ==> r as real <= x < r as real + 1.0
    ensures x < 0.0 ==> r as real - 1.0 < x <= r as real
  {
    if x >= 0.0 then x.Floor else -((-x).Floor)
  }

  // ------------------------------------------------------ scale selection

  /** `max(2000, view_width_hint * 2, view_height_hint * 2)`. */
  function TargetPixels(vw: int, vh: int): (t: int)
    ensures t >= MinTargetPixels && t >= 2 * vw && t >= 2 * vh
    ensures t == MinTargetPixels || t == 2 * vw || t == 2 * vh
  {
    MaxInt(MaxInt(MinTargetPixels, vw * 2), vh * 2)
  }

  /** The scale that fits the pattern's tighter axis to the target, before clamping. */
  function FitScale(w: real, h: real, vw: int, vh: int): real
    requires w > 0.0 && h > 0.0
  {
    var target := TargetPixels(vw, vh) as real;
    MinReal(target / w, target / h)
  }

  /** A scale raised to at least `MinScale` and then capped at `MaxScale`. */
  function Clamped(f: real): real {
    MinReal(MaxReal(f, MinScale), MaxScale)
  }

  /**
   * The render scale for a pattern of `w` x `h` tenths of a millimetre:
   * the fit scale raised to at least `MinScale` and then capped at
   * `MaxScale`, or `InitialRenderScale` when a side is not positive.
   */
  function RenderScale(w: real, h: real, vw: int, vh: int): (s: real)
    ensures w > 0.0 && h > 0.0 ==> MinScale <= s <= MaxScale
    ensures !(w > 0.0 && h > 0.0) ==> s == InitialRenderScale
  {
    if w > 0.0 && h > 0.0 then Clamped(FitScale(w, h, vw, vh)) else InitialRenderScale
  }

  /**
   * What the clamped scale achieves: unless raised to the minimum, the
   * scaled pattern fits inside the target on both axes; unless capped at
   * the maximum, it reaches the target on at least one axis; and when the
   * fit scale is already in range, the longer side is exactly the target.
   */
  lemma {:induction false} ScaleFitsTarget(w: real, h: real, vw: int, vh: int)
    requires w > 0.0 && h > 0.0
    ensures var s, t := RenderScale(w, h, vw, vh), TargetPixels(vw, vh) as real;
      (s > MinScale ==> s * w <= t && s * h <= t)
      && (s < MaxScale ==> s * w >= t || s * h >= t)
      && (MinScale <= FitScale(w, h, vw, vh) <= MaxScale ==> MaxReal(s * w, s * h) == t)
  {
    var t := TargetPixels(vw, vh) as real;
    var sx, sy := t / w, t / h;
    ScaledRatio(t, w);
    ScaledRatio(t, h);
    ClampedFit(t, w, h, sx, sy, RenderScale(w, h, vw, vh));
  }

  /** `ScaleFitsTarget` over an arbitrary positive target, given the two axis ratios. */
  lemma {:induction false} ClampedFit(t: real, w: real, h: real, sx: real, sy: real, s: real)
    requires w > 0.0 && h > 0.0
    requires sx * w == t && sy * h == t
    requires s == Clamped(MinReal(sx, sy))
    ensures s > MinScale ==> s * w <= t && s * h <= t
    ensures s < MaxScale ==> s * w >= t || s * h >= t
    ensures MinScale <= MinReal(sx, sy) <= MaxScale ==> MaxReal(s * w, s * h) == t
  {
    var f := MinReal(sx, sy);
    ClampedBounds(f, s);
    assert f <= sx && f <= sy && (f == sx || f == sy);
    if s > MinScale {
      BelowRatio(s, sx, w, t);
      BelowRatio(s, sy, h, t);
    }
    if s < MaxScale {
      if sx <= sy {
        AboveRatio(s, sx, w, t);
      } else {
        AboveRatio(s, sy, h, t);
      }
    }
    if MinScale <= f <= MaxScale {
      BelowRatio(s, sx, w, t);
      BelowRatio(s, sy, h, t);
      if sx <= sy {
        AboveRatio(s, sx, w, t);
      } else {
        AboveRatio(s, sy, h, t);
      }
    }
  }

  /** A scale at most the ratio `r` of the target `t` to a side `w` keeps that side within `t`. */
  lemma {:induction false} BelowRatio(a: real, r: real, w: real, t: real)
    requires a <= r && w > 0.0 && r * w == t
    ensures a * w <= t
  {
    MulMonotone(a, r, w);
  }

  /** A scale at least the ratio `r` of the target `t` to a side `w` takes that side to `t` or beyond. */
  lemma {:induction false} AboveRatio(a: real, r: real, w: real, t: real)
    requires r <= a && w > 0.0 && r * w == t
    ensures a * w >= t
  {
    MulMonotone(r, a, w);
  }

  /** Clamping keeps a value below it when raised, above it when capped, and unchanged when in range. */
  lemma {:induction false} ClampedBounds(f: real, s: real)
    requires s == Clamped(f)
    ensures MinScale <= s <= MaxScale
    ensures s > MinScale ==> s <= f
    ensures s < MaxScale ==> s >= f
    ensures MinScale <= f <= MaxScale ==> s == f
  {
  }

  lemma {:induction false} ScaledRatio(t: real, w: real)
    requires w > 0.0
    ensures (t / w) * w == t
  {
  }

  lemma {:induction false} MulMonotone(a: real, b: real, w: real)
    requires a <= b && w > 0.0
    ensures a * w <= b * w
  {
  }

  /** The end-to-end example: a 1000 x 1000 pattern in a 500 x 400 view renders at scale 2 with 2-pixel strokes. */
  lemma {:induction false} ScaleExample()
    ensures TargetPixels(500, 400) == 2000
    ensures RenderScale(1000.0, 1000.0, 500, 400) == 2.0
    ensures LineWidth(2.0) == 2
  {
  }

  /** `max(2, int(optimal_scale * 0.8))`. */
  function LineWidth(s: real): (lw: int)
    ensures lw >= MinLineWidth
    ensures lw >= Trunc(s * LineWidthFactor)
    ensures lw == MinLineWidth || (lw as real <= s * LineWidthFactor < lw as real + 1.0)
  {
    MaxInt(MinLineWidth, Trunc(s * LineWidthFactor))
  }

  /** Over the scales `RenderScale` can return, strokes are 2 to 48 pixels wide. */
  lemma {:induction false} LineWidthRange(s: real)
    requires MinScale <= s <= MaxScale
    ensures MinLineWidth <= LineWidth(s) <= 48
  {
  }

  /**
   * The stroke width is the only whole number that is at least 2, at least
   * the truncated `0.8 * s`, and either 2 or the floor of `0.8 * s`.
   */
  lemma {:induction false} LineWidthUnique(s: real, w: int)
    requires w >= MinLineWidth && w >= Trunc(s * LineWidthFactor)
    requires w == MinLineWidth || (w as real <= s * LineWidthFactor < w as real + 1.0)
    ensures w == LineWidth(s)
  {
    var t := Trunc(s * LineWidthFactor);
    if w != MinLineWidth {
      assert s * LineWidthFactor >= 2.0;
      assert t as real <= s * LineWidthFactor < t as real + 1.0;
      assert t == w;
    }
  }

  // -------------------------------------------------------------- bounds

  /**
   * `_get_pattern_bounds_mm10`: the null rectangle for a missing pattern, a
   * pattern without a `bounds` method or one without stitches; otherwise the
   * rectangle spanned by the reported extent.
   */
  function PatternBoundsMm10(p: Option<Pattern>): (r: Rect)
    ensures (p.None? || p.value.bounds.None? || |p.value.stitches| == 0) ==> r == NullRect
    ensures p.Some? && p.value.bounds.Some? && |p.value.stitches| > 0 ==>
      var e := p.value.bounds.value;
      r.x == e.minX && r.y == e.minY && r.x + r.width == e.maxX && r.y + r.height == e.maxY
  {
    if p.None? || p.value.bounds.None? || |p.value.stitches| == 0 then NullRect
    else
      var e := p.value.bounds.value;
      FromCorners(e.minX, e.minY, e.maxX, e.maxY)
  }

  // ------------------------------------------------------------ rendering

  /** `QImage(max(1, vw), max(1, vh), ARGB32_Premultiplied)` filled with the background colour. */
  function Placeholder(vw: int, vh: int, bg: Pixel): (img: Image)
    ensures img.width == MaxInt(1, vw) && img.height == MaxInt(1, vh) && !img.IsNull()
    ensures forall y, x :: 0 <= y < img.height && 0 <= x < img.width ==> img.rows[y][x] == bg
  {
    Filled(MaxInt(1, vw), MaxInt(1, vh), bg)
  }

  /** The `png_settings` handed to the writer; its `"background": None` is fixed and not represented. */
  datatype PngSettings = PngSettings(lineWidth: int, fancy: bool)

  /** A successfully decoded PNG always has pixels. */
  type DecodedImage = i: Image | !i.IsNull() witness Bitmap(1, 1, false, [[Transparent]])

  /**
   * What writing the scaled pattern to PNG and decoding it with
   * `QImage.loadFromData` yields: an image, a decode failure, or an
   * exception raised on the way.
   */
  datatype DecodeOutcome = Loaded(image: DecodedImage) | LoadFailed | Raised

  /**
   * The PNG writer and decoder together, as a function of the pattern, the
   * scale applied to its copy and the settings.
   */
  type Backend = (Pattern, real, PngSettings) -> DecodeOutcome

  /** Nothing to draw: no pattern, or one with neither stitches nor threads. */
  predicate IsDegenerate(p: Option<Pattern>) {
    p.None? || (|p.value.stitches| == 0 && |p.value.threads| == 0)
  }

  /** Whether a render reaches the PNG writer. */
  predicate InvokesBackend(p: Option<Pattern>, hasPngWriter: bool) {
    !IsDegenerate(p) && PatternBoundsMm10(p).IsValid() && hasPngWriter
  }

  datatype RenderState = RenderState(image: Option<Image>, bounds: Rect)

  /**
   * The engine's `(base_image, pattern_bounds_mm10)` after
   * `create_base_image(p, vw, vh)`, given whether the PNG writer could be
   * imported, what it and the decoder produce, the background colour and
   * the previous base image.
   */
  function Render(p: Option<Pattern>, vw: int, vh: int, hasPngWriter: bool, backend: Backend,
                  bg: Pixel, prev: Option<Image>): RenderState
  {
    if IsDegenerate(p) then
      RenderState(Some(Placeholder(vw, vh, bg)), NullRect)
    else
      var bounds := PatternBoundsMm10(p);
      if !bounds.IsValid() || bounds.IsEmpty() then
        RenderState(Some(Placeholder(vw, vh, bg)), bounds)
      else if !hasPngWriter then
        RenderState(prev, bounds)
      else
        var s := RenderScale(bounds.width, bounds.height, vw, vh);
        match backend(p.value, s, PngSettings(LineWidth(s), true))
        case Loaded(img) => RenderState(Some(Composite(img)), bounds)
        case _ => RenderState(Some(Placeholder(vw, vh, bg)), NullRect)
  }

  /** What each path of `create_base_image` leaves behind. */
  lemma {:induction false} RenderMeaning(p: Option<Pattern>, vw: int, vh: int, hasPngWriter: bool, backend: Backend,
                      bg: Pixel, prev: Option<Image>)
    // nothing to draw: placeholder and empty bounds
    ensures IsDegenerate(p) ==> Render(p, vw, vh, hasPngWriter, backend, bg, prev) == RenderState(Some(Placeholder(vw, vh, bg)), NullRect)
    // invalid or empty bounds: placeholder, bounds kept
    ensures !IsDegenerate(p) && !PatternBoundsMm10(p).IsValid() ==>
      Render(p, vw, vh, hasPngWriter, backend, bg, prev) == RenderState(Some(Placeholder(vw, vh, bg)), PatternBoundsMm10(p))
    // no PNG writer: the previous image is left in place
    ensures !IsDegenerate(p) && PatternBoundsMm10(p).IsValid() && !hasPngWriter ==>
      Render(p, vw, vh, hasPngWriter, backend, bg, prev) == RenderState(prev, PatternBoundsMm10(p))
    // the writer is called with a scale in range and a stroke of at least 2 pixels
    ensures InvokesBackend(p, hasPngWriter) ==>
      var b := PatternBoundsMm10(p);
      var s := RenderScale(b.width, b.height, vw, vh);
      MinScale <= s <= MaxScale && LineWidth(s) >= MinLineWidth &&
      match backend(p.value, s, PngSettings(LineWidth(s), true))
      case Loaded(img) => Render(p, vw, vh, hasPngWriter, backend, bg, prev) == RenderState(Some(Composite(img)), b)
      case _ => Render(p, vw, vh, hasPngWriter, backend, bg, prev) == RenderState(Some(Placeholder(vw, vh, bg)), NullRect)
    // whenever bounds are reported, they are the null rectangle or the pattern's bounds
    ensures Render(p, vw, vh, hasPngWriter, backend, bg, prev).bounds == NullRect || Render(p, vw, vh, hasPngWriter, backend, bg, prev).bounds == PatternBoundsMm10(p)
  {
  }

  /**
   * The `else: optimal_scale = config.INITIAL_RENDER_SCALE` branch of
   * `create_base_image` is never taken: a render that gets past the bounds
   * check has a strictly positive width and height.
   */
  lemma {:induction false} FallbackScaleUnreachable(p: Option<Pattern>, vw: int, vh: int, hasPngWriter: bool)
    requires InvokesBackend(p, hasPngWriter)
    ensures PatternBoundsMm10(p).width > 0.0 && PatternBoundsMm10(p).height > 0.0
  {
  }

  /**
   * A render leaves a displayable image behind, except when the PNG writer
   * is missing: then the image is whatever was there before.
   */
  lemma {:induction false} RenderDisplayable(p: Option<Pattern>, vw: int, vh: int, hasPngWriter: bool, backend: Backend,
                          bg: Pixel, prev: Option<Image>)
    requires hasPngWriter || IsDegenerate(p) || !PatternBoundsMm10(p).IsValid()
    ensures var r := Render(p, vw, vh, hasPngWriter, backend, bg, prev);
      r.image.Some? && !r.image.value.IsNull()
  {
    RenderMeaning(p, vw, vh, hasPngWriter, backend, bg, prev);
    if InvokesBackend(p, hasPngWriter) {
      var b := PatternBoundsMm10(p);
      var s := RenderScale(b.width, b.height, vw, vh);
      match backend(p.value, s, PngSettings(LineWidth(s), true))
      case Loaded(img) =>
        assert !img.IsNull();
      case _ =>
    }
  }

  class Engine {
    var baseImage: Option<Image>
    var patternBoundsMm10: Rect
    var backgroundColor: Pixel
    /** Whether `pyembroidery.PngWriter.write` could be imported. */
    const hasPngWriter: bool
    /** How many times the PNG writer has been called. */
    ghost var backendCalls: nat

    constructor (hasPngWriter: bool)
      ensures baseImage == None && patternBoundsMm10 == NullRect
      ensures backgroundColor == DefaultBackground
      ensures this.hasPngWriter == hasPngWriter && backendCalls == 0
    {
      baseImage := None;
      patternBoundsMm10 := NullRect;
      backgroundColor := DefaultBackground;
      this.hasPngWriter := hasPngWriter;
      backendCalls := 0;
    }

    /** `set_background_color`: takes effect on the next placeholder. */
    method SetBackgroundColor(c: Pixel)
      modifies this
      ensures backgroundColor == c
      ensures baseImage == old(baseImage) && patternBoundsMm10 == old(patternBoundsMm10)
      ensures backendCalls == old(backendCalls)
    {
      backgroundColor := c;
    }

    /** `create_base_image(pattern, view_width_hint, view_height_hint)`. */
    method CreateBaseImage(pattern: Option<Pattern>, vw: int, vh: int, backend: Backend)
      modifies this
      ensures RenderState(baseImage, patternBoundsMm10)
        == Render(pattern, vw, vh, hasPngWriter, backend, backgroundColor, old(baseImage))
      ensures backgroundColor == old(backgroundColor)
      ensures backendCalls == old(backendCalls) + (if InvokesBackend(pattern, hasPngWriter) then 1 else 0)
    {
      if IsDegenerate(pattern) {
        baseImage := Some(Placeholder(vw, vh, backgroundColor));
        patternBoundsMm10 := NullRect;
        return;
      }
      patternBoundsMm10 := PatternBoundsMm10(pattern);
      if !patternBoundsMm10.IsValid() || patternBoundsMm10.IsEmpty() {
        baseImage := Some(Placeholder(vw, vh, backgroundColor));
        return;
      }
      var w, h := patternBoundsMm10.width, patternBoundsMm10.height;
      var target := TargetPixels(vw, vh) as real;
      var scale: real;
      if w > 0.0 && h > 0.0 {
        scale := MinReal(target / w, target / h);
        scale := MaxReal(scale, MinScale);
        scale := MinReal(scale, MaxScale);
      } else {
        scale := InitialRenderScale;
      }
      var lineWidth := MaxInt(MinLineWidth, Trunc(scale * LineWidthFactor));
      if !hasPngWriter {
        return;
      }
      backendCalls := backendCalls + 1;
      var outcome := backend(pattern.value, scale, PngSettings(lineWidth, true));
      match outcome {
        case Loaded(img) =>
          if img.hasAlpha {
            baseImage := Some(img);
          } else {
            var keyed := AlphaKey(img);
            baseImage := Some(keyed);
          }
        case LoadFailed =>
          baseImage := Some(Placeholder(vw, vh, backgroundColor));
          patternBoundsMm10 := NullRect;
        case Raised =>
          baseImage := Some(Placeholder(vw, vh, backgroundColor));
          patternBoundsMm10 := NullRect;
      }
    }
  }
}
