/** `ImageTransformer` of the app module. Each transform draws onto a freshly
    created output bitmap; the model keeps the output's size and config and the
    list of canvas operations with their exact geometry. Float parameters are
    exact reals. Whether the RenderScript blur pipeline completes without an
    exception is a parameter. */
module ImageTransforming {
  import opened Common
  import opened Graphics
  import opened ImageTypes

  /** Largest radius `ScriptIntrinsicBlur` is given. */
  const MaxBlurRadius: real := 25.0

  /** `radius.coerceIn(0f, 25f)`. */
  function ClampBlurRadius(radius: real): (c: real)
    ensures 0.0 <= c <= MaxBlurRadius
    ensures 0.0 <= radius <= MaxBlurRadius ==> c == radius
    ensures radius < 0.0 ==> c == 0.0
    ensures radius > MaxBlurRadius ==> c == MaxBlurRadius
  {
    if radius < 0.0 then 0.0 else if radius > MaxBlurRadius then MaxBlurRadius else radius
  }

  /** Clamping twice is clamping once. */
  lemma ClampIdempotent(radius: real)
    ensures ClampBlurRadius(ClampBlurRadius(radius)) == ClampBlurRadius(radius)
  {
  }

  /** The source rectangle of `applyCircle`: the centred `size`×`size` square,
      `size = min(w, h)`, with `left = (w - size) / 2` and `top = (h - size) / 2`. */
  function CenteredSquare(w: int, h: int): (r: Rect)
    requires w > 0 && h > 0
    ensures var size := Min(w, h);
      r.right - r.left == size && r.bottom - r.top == size
    ensures 0 <= r.left && r.right <= w && 0 <= r.top && r.bottom <= h
    ensures r.left == 0 || r.top == 0
    ensures var size := Min(w, h);
      0 <= (w - r.right) - r.left <= 1 && 0 <= (h - r.bottom) - r.top <= 1
  {
    var size := Min(w, h);
    var left := (w - size) / 2;
    var top := (h - size) / 2;
    Rect(left, top, left + size, top + size)
  }

  /** The border ring is stroked at `size / 2 - borderWidth / 2`, so that its
      outer edge touches the output's edge. */
  function BorderRadius(size: int, borderWidth: real): (r: real)
    ensures r + borderWidth / 2.0 == size as real / 2.0
    ensures borderWidth > 0.0 ==> r < size as real / 2.0
  {
    size as real / 2.0 - borderWidth / 2.0
  }

  /** The canvas operations `applyCircle` performs on an output of side `size`. */
  function CircleOps(input: Bitmap, size: int, borderWidth: real, borderColor: int): (ops: seq<DrawOp>)
    requires input.width > 0 && input.height > 0 && size == Min(input.width, input.height)
    ensures |ops| == if borderWidth > 0.0 then 3 else 2
    ensures ops[0] == FillCircle(size as real / 2.0, size as real / 2.0, size as real / 2.0)
    ensures ops[1] == DrawBitmapSrcIn(input, CenteredSquare(input.width, input.height), Rect(0, 0, size, size))
    ensures borderWidth > 0.0 ==>
      ops[2] == StrokeCircle(size as real / 2.0, size as real / 2.0, BorderRadius(size, borderWidth), borderWidth, borderColor)
  {
    var half := size as real / 2.0;
    [FillCircle(half, half, half),
     DrawBitmapSrcIn(input, CenteredSquare(input.width, input.height), Rect(0, 0, size, size))] +
    (if borderWidth > 0.0 then [StrokeCircle(half, half, BorderRadius(size, borderWidth), borderWidth, borderColor)] else [])
  }

  /** `applyRoundedCorners`: a new ARGB_8888 bitmap of the input's size, filled
      with the rounded rectangle and then the input drawn SRC_IN over it. */
  method ApplyRoundedCorners(input: Bitmap, radius: real) returns (output: Bitmap)
    requires input.width > 0 && input.height > 0
    ensures fresh(output)
    ensures output.width == input.width && output.height == input.height
    ensures output.config == Some(ARGB_8888) && output.isMutable && !output.isRecycled
    ensures var whole := Rect(0, 0, input.width, input.height);
      output.content == [FillRoundRect(whole, radius), DrawBitmapSrcIn(input, whole, whole)]
  {
    output := new Bitmap.Create(input.width, input.height, ARGB_8888);
    var rect := Rect(0, 0, input.width, input.height);
    output.content := output.content + [FillRoundRect(rect, radius)];
    output.content := output.content + [DrawBitmapSrcIn(input, rect, rect)];
  }

  /** `applyCircle`: a new square bitmap of side min(width, height) holding the
      circle, the centred crop of the input and, for a positive border width,
      the border ring. */
  method ApplyCircle(input: Bitmap, borderWidth: real, borderColor: int) returns (output: Bitmap)
    requires input.width > 0 && input.height > 0
    ensures fresh(output)
    ensures output.width == Min(input.width, input.height) && output.height == output.width
    ensures output.config == Some(ARGB_8888) && output.isMutable && !output.isRecycled
    ensures output.content == CircleOps(input, output.width, borderWidth, borderColor)
  {
    var size := Min(input.width, input.height);
    output := new Bitmap.Create(size, size, ARGB_8888);
    var half := size as real / 2.0;
    output.content := output.content + [FillCircle(half, half, half)];
    var left := (input.width - size) / 2;
    var top := (input.height - size) / 2;
    var srcRect := Rect(left, top, left + size, top + size);
    assert srcRect == CenteredSquare(input.width, input.height);
    output.content := output.content + [DrawBitmapSrcIn(input, srcRect, Rect(0, 0, size, size))];
    if borderWidth > 0.0 {
      var ringRadius := half - borderWidth / 2.0;
      assert ringRadius == BorderRadius(size, borderWidth);
      output.content := output.content + [StrokeCircle(half, half, ringRadius, borderWidth, borderColor)];
    }
    assert output.content == CircleOps(input, size, borderWidth, borderColor);
  }

  /** `applyBlur`. Without a context, or when a RenderScript call throws, the
      input itself is returned. A config-less input also ends in the catch:
      `blurred` is null and `output.copyTo(null)` throws. Otherwise the result
      is a new bitmap of the input's size and config holding the blur with the
      clamped radius. */
  method ApplyBlur(input: Bitmap, radius: real, hasContext: bool, renderScriptCompletes: bool)
    returns (r: Option<Bitmap>)
    requires input.width > 0 && input.height > 0
    ensures r.Some?
    ensures !hasContext || !renderScriptCompletes || input.config.None? ==> r == Some(input)
    ensures hasContext && renderScriptCompletes && input.config.Some? ==>
      fresh(r.value) &&
      r.value.width == input.width && r.value.height == input.height && r.value.config == input.config &&
      r.value.content == [BlurredCopy(input, ClampBlurRadius(radius))]
  {
    if !hasContext {
      return Some(input);
    }
    if !renderScriptCompletes {
      return Some(input);
    }
    var clamped := ClampBlurRadius(radius);
    if input.config.None? {
      // `output.copyTo(null)` throws; the catch hands back the input
      return Some(input);
    }
    var blurred := new Bitmap.Create(input.width, input.height, input.config.value);
    blurred.content := [BlurredCopy(input, clamped)];
    r := Some(blurred);
  }

  /** The blur falls back to the input itself. */
  predicate BlurFallsBack(input: Bitmap, hasContext: bool, renderScriptCompletes: bool) {
    !hasContext || !renderScriptCompletes || input.config.None?
  }

  /** What `apply(input, t)` leaves in its output bitmap `out`, transform by
      transform: the specification both `apply` and the loader are held to. */
  predicate IsTransformed(input: Bitmap, t: ImageTransformation, hasContext: bool, renderScriptCompletes: bool,
                          out: Bitmap)
    requires input.width > 0 && input.height > 0
    reads out
  {
    match t
    case None => out == input
    case RoundedCorners(radius) =>
      var whole := Rect(0, 0, input.width, input.height);
      out.width == input.width && out.height == input.height &&
      out.config == Some(ARGB_8888) && out.isMutable && !out.isRecycled &&
      out.content == [FillRoundRect(whole, radius), DrawBitmapSrcIn(input, whole, whole)]
    case Circle(borderWidth, borderColor) =>
      out.width == Min(input.width, input.height) && out.height == out.width &&
      out.config == Some(ARGB_8888) && out.isMutable && !out.isRecycled &&
      out.content == CircleOps(input, out.width, borderWidth, borderColor)
    case Blur(radius) =>
      if BlurFallsBack(input, hasContext, renderScriptCompletes) then out == input
      else
        out.width == input.width && out.height == input.height && out.config == input.config &&
        out.content == [BlurredCopy(input, ClampBlurRadius(radius))]
  }

  /** `apply`: dispatch on the transformation. `None` and a blur that falls
      back hand back the very same bitmap; every other case a fresh one. The
      result is never null. */
  method Apply(input: Bitmap, t: ImageTransformation, hasContext: bool, renderScriptCompletes: bool)
    returns (r: Option<Bitmap>)
    requires input.width > 0 && input.height > 0
    ensures r.Some? && IsTransformed(input, t, hasContext, renderScriptCompletes, r.value)
    ensures t.None? || (t.Blur? && BlurFallsBack(input, hasContext, renderScriptCompletes)) <==> r == Some(input)
    ensures r != Some(input) ==> fresh(r.value)
  {
    match t
    case None =>
      r := Some(input);
    case RoundedCorners(radius) =>
      var output := ApplyRoundedCorners(input, radius);
      r := Some(output);
    case Circle(borderWidth, borderColor) =>
      var output := ApplyCircle(input, borderWidth, borderColor);
      r := Some(output);
    case Blur(radius) =>
      r := ApplyBlur(input, radius, hasContext, renderScriptCompletes);
  }
}
