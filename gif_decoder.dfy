/** The GIF decoder of the library module. Its metadata comes from the platform's
    `Movie` (width, height, total duration); the frame count is estimated from the
    duration at 10 frames per second, or, when the duration is unknown, by counting
    Image Separator bytes (0x2C, section 20 of the GIF89a specification) as a
    heuristic. Drawing a frame is platform work and is not modelled; what is
    modelled is the metadata, the reported frame duration and the released guard. */
module GifDecoding {
  import opened Common
  import opened DecoderShape

  /** The GIF89a Image Separator byte. */
  const ImageSeparator: Byte := 0x2C

  /** Number of Image Separator bytes in `s`. */
  function SeparatorCount(s: seq<Byte>): (n: nat)
    ensures n <= |s|
  {
    if s == [] then 0
    else SeparatorCount(s[..|s| - 1]) + (if s[|s| - 1] == ImageSeparator then 1 else 0)
  }

  /** The separator count is the multiplicity of 0x2C in the scanned bytes. */
  lemma {:induction false} SeparatorCountIsMultiplicity(s: seq<Byte>)
    ensures SeparatorCount(s) == multiset(s)[ImageSeparator]
  {
    if s != [] {
      var init := s[..|s| - 1];
      SeparatorCountIsMultiplicity(init);
      assert s == init + [s[|s| - 1]];
      assert multiset(s) == multiset(init) + multiset{s[|s| - 1]};
    }
  }

  /** The indices the counting loop visits, `0 until bytes.size - 1`: every byte
      but the last. */
  function ScannedPrefix(bytes: seq<Byte>): (p: seq<Byte>)
    ensures |p| == if |bytes| == 0 then 0 else |bytes| - 1
    ensures forall i :: 0 <= i < |p| ==> p[i] == bytes[i]
  {
    if |bytes| == 0 then [] else bytes[..|bytes| - 1]
  }

  /** `countGifFrames`: the separator count over all but the last byte, at least 1. */
  method CountGifFrames(bytes: seq<Byte>) returns (n: int)
    ensures n == Max(SeparatorCount(ScannedPrefix(bytes)), 1)
    ensures 1 <= n && n <= Max(|bytes| - 1, 1)
  {
    var count := 0;
    var i := 0;
    while i < |bytes| - 1
      invariant 0 <= i <= Max(|bytes| - 1, 0)
      invariant count == SeparatorCount(bytes[..i])
    {
      assert bytes[..i + 1][..i] == bytes[..i];
      if bytes[i] == ImageSeparator {
        count := count + 1;
      }
      i := i + 1;
    }
    assert bytes[..i] == ScannedPrefix(bytes);
    n := Max(count, 1);
  }

  /** The last byte never contributes to the count, whatever its value. */
  lemma LastByteNeverCounted(prefix: seq<Byte>, x: Byte)
    ensures SeparatorCount(ScannedPrefix(prefix + [x])) == SeparatorCount(prefix)
  {
    assert ScannedPrefix(prefix + [x]) == prefix;
  }

  /** What the platform's `Movie` reports for the bytes. */
  datatype MovieInfo = MovieInfo(width: int, height: int, duration: int)

  /** The `frameCount` initialiser: duration / 100 (at least 1) when the duration
      is positive, else the separator-count heuristic. */
  function GifFrameCount(bytes: seq<Byte>, duration: int): (n: int)
    ensures n >= 1
    ensures duration >= 100 ==> n == duration / 100
    ensures 0 < duration < 100 ==> n == 1
    ensures duration <= 0 ==> n == Max(SeparatorCount(ScannedPrefix(bytes)), 1)
  {
    if duration > 0 then Max(duration / 100, 1) else Max(SeparatorCount(ScannedPrefix(bytes)), 1)
  }

  /** The average frame duration of a GIF decoder is always positive; for a
      duration of at least 100 ms it lies in [100, 199], and below 100 ms it is
      the whole duration. */
  lemma GifFrameDurationBounds(bytes: seq<Byte>, duration: int)
    ensures var d := AverageFrameDuration(duration, GifFrameCount(bytes, duration));
      d > 0 &&
      (duration >= 100 ==> 100 <= d <= 199) &&
      (0 < duration < 100 ==> d == duration) &&
      (duration <= 0 ==> d == DefaultFrameDurationMs)
  {
    var n := GifFrameCount(bytes, duration);
    var d := AverageFrameDuration(duration, n);
    if duration >= 100 {
      assert n == duration / 100 && n >= 1;
      assert 100 * n <= duration < 100 * n + 100;
      assert d * n <= duration < (d + 1) * n;
      QuotientBounds(d, n, duration);
    }
  }

  /** If d * n <= t < (d + 1) * n and 100 * n <= t < 100 * n + 100 with n >= 1,
      then 100 <= d <= 199. */
  lemma QuotientBounds(d: int, n: int, t: int)
    requires n >= 1
    requires d * n <= t < (d + 1) * n
    requires 100 * n <= t < 100 * n + 100
    ensures 100 <= d <= 199
  {
    assert 100 * n < (d + 1) * n;
    MulMonotoneInverse(100, d + 1, n);
    assert d * n < 200 * n;
    MulMonotoneInverse(d, 200, n);
  }

  lemma MulMonotoneInverse(a: int, b: int, n: int)
    requires n >= 1 && a * n < b * n
    ensures a < b
  {
    assert (b - a) * n > 0;
  }

  class GifDecoder {
    const bytes: seq<Byte>
    const width: int
    const height: int
    const duration: int
    const frameCount: int
    const isLooping: bool
    var isReleased: bool

    /** The decoder's fixed metadata agrees with the frame-count rule. */
    ghost predicate Valid() {
      frameCount == GifFrameCount(bytes, duration) && isLooping
    }

    /** Construction from a successfully decoded `Movie`; see NewGifDecoder for
        the failing case. */
    constructor (bytes: seq<Byte>, movie: MovieInfo)
      ensures Valid() && !isReleased
      ensures this.bytes == bytes && width == movie.width && height == movie.height
      ensures duration == movie.duration
    {
      this.bytes := bytes;
      this.width := movie.width;
      this.height := movie.height;
      this.duration := movie.duration;
      this.isLooping := true;
      var n: int;
      if movie.duration > 0 {
        n := Max(movie.duration / 100, 1);
      } else {
        n := CountGifFrames(bytes);
      }
      this.frameCount := n;
      this.isReleased := false;
    }

    /** `getFrameDuration`: the same average for every index, always positive. */
    function GetFrameDuration(frameIndex: int): (d: int)
      requires Valid()
      ensures d > 0
      ensures duration >= 100 ==> 100 <= d <= 199
      ensures 0 < duration < 100 ==> d == duration
      ensures duration <= 0 ==> d == DefaultFrameDurationMs
    {
      GifFrameDurationBounds(bytes, duration);
      AverageFrameDuration(duration, frameCount)
    }

    /** `decodeFrame`: refused after release, otherwise reports the frame's
        display duration. The drawing onto the output bitmap is not modelled. */
    method DecodeFrame(frameIndex: int) returns (r: Result<int, DecoderError>)
      requires Valid()
      ensures isReleased <==> r.Failure?
      ensures r.Failure? ==> r.error == AlreadyReleased
      ensures r.Success? ==> r.value == GetFrameDuration(frameIndex) && r.value > 0
    {
      if isReleased {
        return Failure(AlreadyReleased);
      }
      r := Success(GetFrameDuration(frameIndex));
    }

    /** `release`: sets the released flag, once and for all. */
    method Release()
      modifies this
      ensures isReleased
    {
      if !isReleased {
        isReleased := true;
      }
    }
  }

  /** `GifDecoder(bytes)`: fails with IllegalArgumentException when the platform
      cannot decode the bytes as a `Movie`. */
  method NewGifDecoder(bytes: seq<Byte>, movie: Option<MovieInfo>) returns (r: Result<GifDecoder, DecoderError>)
    ensures movie.None? <==> r.Failure?
    ensures r.Failure? ==> r.error == IllegalArgument
    ensures r.Success? ==> fresh(r.value) && r.value.Valid() && !r.value.isReleased
    ensures r.Success? ==> r.value.bytes == bytes && r.value.duration == movie.value.duration
    ensures r.Success? ==> r.value.width == movie.value.width && r.value.height == movie.value.height
  {
    if movie.None? {
      return Failure(IllegalArgument);
    }
    var d := new GifDecoder(bytes, movie.value);
    r := Success(d);
  }
}
