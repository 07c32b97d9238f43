/** The two WebP decoders of the app module: the animated one (API level 28 and
    later), whose metadata comes from the chunk walk, and the legacy stub used on
    older platforms. The platform's `AnimatedImageDrawable` is reduced to its
    intrinsic size and its running flag; drawing is not modelled. */
module WebPDecoding {
  import opened Common
  import opened DecoderShape
  import opened WebPChunks

  /** Duration used when the ANIM/ANMF parse yields nothing (always, in fact). */
  const FallbackDurationMs: int := 2000
  /** Frame count used when the walk finds no ANMF chunk. */
  const FallbackFrameCount: int := 20

  /** What the platform reports after `ImageDecoder.decodeDrawable`. */
  datatype DrawableInfo = DrawableInfo(intrinsicWidth: int, intrinsicHeight: int)

  /** `estimateDuration`: the parsed duration, or 2000 ms. */
  function EstimateDuration(parsed: Option<int>): (d: int)
    ensures parsed.None? ==> d == FallbackDurationMs
    ensures parsed.Some? ==> d == parsed.value
  {
    if parsed.Some? then parsed.value else FallbackDurationMs
  }

  /** `estimateFrameCount`: the parsed ANMF count, or 20. */
  function EstimateFrameCount(parsed: Option<int>): (n: int)
    ensures parsed.None? ==> n == FallbackFrameCount
    ensures parsed.Some? ==> n == parsed.value
  {
    if parsed.Some? then parsed.value else FallbackFrameCount
  }

  /** The frame count the decoder settles on for a walk that ended: the ANMF
      count if positive, otherwise 20. It is at least 1 in every case. */
  lemma FrameCountOfWalk(w: Walk)
    requires w != Running
    ensures var n := EstimateFrameCount(FrameCountResult(w));
      n >= 1 && (w.Finished? && w.anmf > 0 ==> n == w.anmf) && (w.Threw? || w == Finished(0) ==> n == 20)
  {
  }

  class WebPDecoder {
    const bytes: seq<Byte>
    const width: int
    const height: int
    const duration: int
    const frameCount: int
    const isLooping: bool
    /** `drawable.isRunning`. */
    var running: bool

    /** Metadata as every constructed decoder has it: the duration fallback
        always applies, the frame count is positive and the animation loops. */
    ghost predicate Valid() {
      duration == FallbackDurationMs && frameCount >= 1 && isLooping
    }

    /** Construction after a successful `decodeDrawable`. Both chunk walks run
        in their corrected form, which ends on every buffer (the walks as
        written spin on a chunk size of -8 or -7; see WebPChunks). */
    constructor (bytes: seq<Byte>, drawable: DrawableInfo)
      requires |bytes| <= Int32Max
      ensures Valid() && !running
      ensures this.bytes == bytes
      ensures width == drawable.intrinsicWidth && height == drawable.intrinsicHeight
      ensures frameCount == EstimateFrameCount(FrameCountResult(CheckedWalk(bytes, 12)))
    {
      this.bytes := bytes;
      this.width := drawable.intrinsicWidth;
      this.height := drawable.intrinsicHeight;
      this.isLooping := true;
      var parsedDuration := ParseWebPDurationChecked(bytes);
      this.duration := EstimateDuration(parsedDuration);
      var parsedCount := ParseWebPFrameCountChecked(bytes);
      FrameCountOfWalk(CheckedWalk(bytes, 12));
      this.frameCount := EstimateFrameCount(parsedCount);
      this.running := false;
    }

    /** `getFrameDuration`: 2000 / frameCount for every index. More than 2000
        ANMF chunks make it 0. */
    function GetFrameDuration(frameIndex: int): (d: int)
      requires Valid()
      ensures d == AverageFrameDuration(FallbackDurationMs, frameCount)
      ensures 0 <= d <= FallbackDurationMs
      ensures d == 0 <==> frameCount > FallbackDurationMs
    {
      AverageFrameDuration(duration, frameCount)
    }

    /** `decodeFrame`: starts the drawable if it is not running and reports the
        average frame duration; there is no released guard. */
    method DecodeFrame(frameIndex: int) returns (d: int)
      requires Valid()
      modifies this
      ensures running
      ensures d == GetFrameDuration(frameIndex)
    {
      if !running {
        running := true;
      }
      d := GetFrameDuration(frameIndex);
    }

    /** `release`: stops the drawable; calling it again changes nothing. */
    method Release()
      modifies this
      ensures !running
    {
      running := false;
    }
  }

  /** `WebPDecoder(bytes)`: the construction fails when the platform cannot decode
      the bytes as an animated drawable; the chunk walks run only afterwards. */
  method NewWebPDecoder(bytes: seq<Byte>, drawable: Option<DrawableInfo>) returns (r: Result<WebPDecoder, DecoderError>)
    requires |bytes| <= Int32Max
    ensures drawable.None? <==> r.Failure?
    ensures r.Failure? ==> r.error == DecodeFailed
    ensures r.Success? ==> fresh(r.value) && r.value.Valid() && !r.value.running
    ensures r.Success? ==> r.value.bytes == bytes && r.value.width == drawable.value.intrinsicWidth
  {
    if drawable.None? {
      return Failure(DecodeFailed);
    }
    var d := new WebPDecoder(bytes, drawable.value);
    r := Success(d);
  }

  /** `WebPDecoderLegacy`: a fixed stub that reports a single, zero-sized,
      non-looping frame and refuses to decode. */
  datatype WebPDecoderLegacy = WebPDecoderLegacy(bytes: seq<Byte>)
  {
    const frameCount: int := 1
    const duration: int := 0
    const width: int := 0
    const height: int := 0
    const isLooping: bool := false

    /** `decodeFrame`: always throws UnsupportedOperationException. */
    function DecodeFrame(frameIndex: int): (r: Result<int, DecoderError>)
      ensures r.Failure? && r.error == Unsupported
    {
      Failure(Unsupported)
    }

    /** `getFrameDuration`: always 0, unlike the 100 ms default of the others. */
    function GetFrameDuration(frameIndex: int): (d: int)
      ensures d == 0
    {
      0
    }
  }
}
