/** `ImageDownloader` of the app module: classifies fetched bytes as an animated
    GIF or a decoded still image, and the value semantics of its `ImageData`.
    The network read itself is a parameter: `None` stands for any exception
    raised while connecting or reading. */
module ImageDownloading {
  import opened Common
  import opened Graphics
  import opened Platform
  import opened GifDecoding
  import DecoderFactory
  import ImageTypes

  /** The app module's `ImageData`. */
  datatype AppImageData =
    | StaticImage(bitmap: Bitmap)
    | AnimatedGif(bytes: seq<Byte>, frameCount: int)

  /** `isGif`: at least 6 bytes, the first three spelling "GIF". */
  predicate IsGif(bytes: seq<Byte>) {
    |bytes| >= 6 && bytes[0] == Ascii('G') && bytes[1] == Ascii('I') && bytes[2] == Ascii('F')
  }

  /** Whatever the sniffer of the decoder factory calls GIF, `isGif` accepts. */
  lemma DetectedGifIsGif(bytes: seq<Byte>)
    requires DecoderFactory.DetectFormat(bytes) == Some(ImageTypes.GIF)
    ensures IsGif(bytes)
  {
  }

  /** The converse fails: `isGif` accepts the 6-byte header "GIF89a", which the
      sniffer rejects for being shorter than 12 bytes. */
  lemma IsGifLooserThanDetectFormat()
    ensures var header := [0x47, 0x49, 0x46, 0x38, 0x39, 0x61];
      IsGif(header) && DecoderFactory.DetectFormat(header).None?
  {
  }

  /** `getGifFrameCount`: the downloader repeats the GIF decoder's separator
      count loop character for character, so it is that method. */
  method GetGifFrameCount(bytes: seq<Byte>) returns (n: int)
    ensures n == Max(SeparatorCount(ScannedPrefix(bytes)), 1)
    ensures n >= 1
  {
    n := CountGifFrames(bytes);
  }

  /** `download`: GIF bytes are kept verbatim with their estimated frame count;
      other bytes are decoded into a bitmap, and a failed decode or a failed
      fetch yields null. */
  method Download(fetched: Option<seq<Byte>>, codecs: Codecs) returns (r: Option<AppImageData>)
    ensures fetched.None? ==> r.None?
    ensures r.Some? && r.value.AnimatedGif? <==> fetched.Some? && IsGif(fetched.value)
    ensures r.Some? && r.value.AnimatedGif? ==>
      r.value.bytes == fetched.value &&
      r.value.frameCount == Max(SeparatorCount(ScannedPrefix(fetched.value)), 1)
    ensures r.Some? && r.value.StaticImage? <==>
      fetched.Some? && !IsGif(fetched.value) && codecs.decodeBitmap(fetched.value).Some?
    ensures r.Some? && r.value.StaticImage? ==> r.value.bitmap == codecs.decodeBitmap(fetched.value).value
  {
    if fetched.None? {
      return Option.None;
    }
    var bytes := fetched.value;
    if IsGif(bytes) {
      var frameCount := GetGifFrameCount(bytes);
      return Some(AnimatedGif(bytes, frameCount));
    }
    var bitmap := codecs.decodeBitmap(bytes);
    if bitmap.Some? {
      return Some(StaticImage(bitmap.value));
    }
    return Option.None;
  }

  /** `AnimatedGif.equals`: false for null or a different class, otherwise equal
      frame counts and equal byte contents. */
  function GifEquals(bytes: seq<Byte>, frameCount: int, other: Option<AppImageData>): (eq: bool)
    ensures eq <==> other == Some(AnimatedGif(bytes, frameCount))
  {
    if other.None? || !other.value.AnimatedGif? then false
    else if frameCount != other.value.frameCount then false
    else bytes == other.value.bytes
  }

  /** `ByteArray.contentHashCode()` (`Arrays.hashCode`): starting at 1, each byte
      folds in as `31 * h + b` with signed bytes and wrapping `Int` arithmetic. */
  function ContentHashCode(bytes: seq<Byte>): (h: int)
    ensures IsInt32(h)
  {
    if bytes == [] then 1
    else ToInt32(31 * ContentHashCode(bytes[..|bytes| - 1]) + Signed(bytes[|bytes| - 1]))
  }

  /** `AnimatedGif.hashCode`: `31 * frameCount + contentHashCode`, wrapping.
      (A frame count never exceeds the byte count, so it is an `Int` already.) */
  function GifHashCode(bytes: seq<Byte>, frameCount: int): (h: int)
    ensures IsInt32(h)
  {
    ToInt32(31 * frameCount + ContentHashCode(bytes))
  }

  /** Equal values have equal hash codes. */
  lemma EqualsImpliesEqualHash(bytes: seq<Byte>, frameCount: int, other: AppImageData)
    requires GifEquals(bytes, frameCount, Some(other))
    ensures GifHashCode(bytes, frameCount) == GifHashCode(other.bytes, other.frameCount)
  {
  }

  /** The hash is not injective: ([0], 1) and ([31], 0) both hash to 62. */
  lemma HashCollision()
    ensures GifHashCode([0], 1) == GifHashCode([31], 0) == 62
    ensures !GifEquals([0], 1, Some(AnimatedGif([31], 0)))
  {
    assert ContentHashCode([0]) == 31 by {
      assert [0][..0] == [];
    }
    assert ContentHashCode([31]) == 62 by {
      assert [31][..0] == [];
    }
  }
}
