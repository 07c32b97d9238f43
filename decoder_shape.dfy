/** What every animated decoder shares: the ways its calls fail, the metadata a
    cache records about it, and the average-frame-duration rule that both the GIF
    and the WebP decoder use. */
module DecoderShape {

  /** The exceptions the decoders throw, as values. */
  datatype DecoderError =
    | IllegalArgument   // the platform could not decode the container at construction
    | DecodeFailed      // the platform image decoder threw at construction
    | Unsupported       // animated WebP below API level 28
    | AlreadyReleased   // decodeFrame after release

  /** Metadata read from a constructed decoder: frameCount, width, height. */
  datatype DecoderMeta = DecoderMeta(frameCount: int, width: int, height: int)

  /** Frame duration used when duration or frame count is not positive. */
  const DefaultFrameDurationMs: int := 100

  /** `getFrameDuration`: the integer average `duration / frameCount` when both are
      positive, otherwise the 100 ms default. */
  function AverageFrameDuration(duration: int, frameCount: int): (d: int)
    ensures duration > 0 && frameCount > 0 ==> 0 <= d <= duration
    ensures duration > 0 && frameCount > 0 ==> d * frameCount <= duration < (d + 1) * frameCount
    ensures duration <= 0 || frameCount <= 0 ==> d == DefaultFrameDurationMs
  {
    if duration > 0 && frameCount > 0 then duration / frameCount else DefaultFrameDurationMs
  }
}
