/** `AnimatedImageDecoderFactory` of the app module: the byte-signature sniffer
    and the format/platform-level dispatch to a decoder. The factory names a
    `GifDecoder` of its own package that is not part of this model; the GIF
    decoder of the library module stands in for it. */
module DecoderFactory {
  import opened Common
  import opened DecoderShape
  import opened ImageTypes
  import opened GifDecoding
  import opened WebPChunks
  import opened WebPDecoding

  /** `Build.VERSION_CODES.P`. */
  const AnimatedWebPMinSdk: int := 28

  /** Bytes 0..2 spell "GIF" (the version bytes "87a"/"89a" are not read). */
  predicate HasGifSignature(bytes: seq<Byte>)
    requires |bytes| >= 3
  {
    bytes[0] == Ascii('G') && bytes[1] == Ascii('I') && bytes[2] == Ascii('F')
  }

  /** Bytes 0..3 spell "RIFF" and bytes 8..11 spell "WEBP". */
  predicate HasRiffWebPSignature(bytes: seq<Byte>)
    requires |bytes| >= 12
  {
    bytes[0] == Ascii('R') && bytes[1] == Ascii('I') && bytes[2] == Ascii('F') && bytes[3] == Ascii('F') &&
    bytes[8] == Ascii('W') && bytes[9] == Ascii('E') && bytes[10] == Ascii('B') && bytes[11] == Ascii('P')
  }

  /** `(flags and 0x02) != 0` for the flags byte: bit 1. Sign extension of the
      byte does not touch bit 1, so the unsigned view gives the same answer. */
  predicate AnimationBit(flags: Byte): (set_: bool)
    ensures set_ <==> flags % 4 >= 2
  {
    (flags / 2) % 2 == 1
  }

  /** `detectFormat`: a chain of early returns over the byte prefix. */
  function DetectFormat(bytes: seq<Byte>): (r: Option<AnimatedFormat>)
    ensures r.Some? ==> |bytes| >= 12
  {
    if |bytes| < 12 then Option.None
    else if HasGifSignature(bytes) then Some(GIF)
    else if HasRiffWebPSignature(bytes) && |bytes| >= 21 && AnimationBit(bytes[20]) then Some(WEBP)
    else Option.None
  }

  /** Anything shorter than 12 bytes is rejected, even "GIF89a". */
  lemma ShortBuffersRejected(bytes: seq<Byte>)
    requires |bytes| < 12
    ensures DetectFormat(bytes) == Option.None
  {
  }

  /** The result is GIF exactly for buffers of at least 12 bytes starting "GIF". */
  lemma DetectGifIff(bytes: seq<Byte>)
    ensures DetectFormat(bytes) == Some(GIF) <==> |bytes| >= 12 && HasGifSignature(bytes)
  {
  }

  /** The result is WEBP exactly when the RIFF/WEBP signature is present, the
      buffer has a byte 20 and its animation bit is set. */
  lemma DetectWebPIff(bytes: seq<Byte>)
    ensures DetectFormat(bytes) == Some(WEBP) <==>
      |bytes| >= 21 && HasRiffWebPSignature(bytes) && AnimationBit(bytes[20])
  {
  }

  /** A RIFF/WEBP buffer without a byte 20, or with the animation bit clear, is
      not recognised. */
  lemma StillWebPRejected(bytes: seq<Byte>)
    requires |bytes| >= 12 && HasRiffWebPSignature(bytes)
    requires |bytes| < 21 || !AnimationBit(bytes[20])
    ensures DetectFormat(bytes) == Option.None
  {
  }

  /** Two buffers that agree on their length, on bytes [0..4), [8..12) and on
      byte 20 get the same answer: the RIFF size field and the chunk tag at
      [12..16) are never read. */
  lemma {:induction false} DetectFormatReadsOnlySignature(a: seq<Byte>, b: seq<Byte>)
    requires |a| == |b|
    requires |a| >= 12 ==> a[..4] == b[..4] && a[8..12] == b[8..12]
    requires |a| >= 21 ==> a[20] == b[20]
    ensures DetectFormat(a) == DetectFormat(b)
  {
    if |a| >= 12 {
      assert a[0] == a[..4][0] == b[..4][0] && a[1] == a[..4][1] == b[..4][1];
      assert a[2] == a[..4][2] == b[..4][2] && a[3] == a[..4][3] == b[..4][3];
      assert a[8] == a[8..12][0] == b[8..12][0] && a[9] == a[8..12][1] == b[8..12][1];
      assert a[10] == a[8..12][2] == b[8..12][2] && a[11] == a[8..12][3] == b[8..12][3];
    }
  }

  /** The signatures exclude each other: byte 0 is 'G' for one and 'R' for the
      other. */
  lemma SignaturesExclusive(bytes: seq<Byte>)
    requires |bytes| >= 12
    ensures !(HasGifSignature(bytes) && HasRiffWebPSignature(bytes))
  {
  }

  /** An `AnimatedImageDecoder`: one of the three implementations. */
  datatype AnimatedImageDecoder =
    | GifImpl(gif: GifDecoder)
    | WebPImpl(webp: WebPDecoder)
    | LegacyImpl(legacy: WebPDecoderLegacy)
  {
    ghost predicate Valid() {
      match this
      case GifImpl(g) => g.Valid()
      case WebPImpl(w) => w.Valid()
      case LegacyImpl(_) => true
    }

    function FrameCount(): int {
      match this
      case GifImpl(g) => g.frameCount
      case WebPImpl(w) => w.frameCount
      case LegacyImpl(l) => l.frameCount
    }

    function Duration(): int {
      match this
      case GifImpl(g) => g.duration
      case WebPImpl(w) => w.duration
      case LegacyImpl(l) => l.duration
    }

    function Width(): int {
      match this
      case GifImpl(g) => g.width
      case WebPImpl(w) => w.width
      case LegacyImpl(l) => l.width
    }

    function Height(): int {
      match this
      case GifImpl(g) => g.height
      case WebPImpl(w) => w.height
      case LegacyImpl(l) => l.height
    }

    function IsLooping(): bool {
      match this
      case GifImpl(g) => g.isLooping
      case WebPImpl(w) => w.isLooping
      case LegacyImpl(l) => l.isLooping
    }

    /** The metadata a disk cache records when it ingests the bytes. */
    function Meta(): (m: DecoderMeta)
      ensures m.frameCount == FrameCount() && m.width == Width() && m.height == Height()
    {
      DecoderMeta(FrameCount(), Width(), Height())
    }
  }

  /** Every decoder reports at least one frame; all but the legacy stub loop. */
  lemma DecoderShapeInvariant(d: AnimatedImageDecoder)
    requires d.Valid()
    ensures d.FrameCount() >= 1
    ensures d.IsLooping() <==> !d.LegacyImpl?
  {
  }

  /** `createDecoder`: GIF bytes get a GifDecoder; WebP bytes get the animated
      decoder from API level 28 on and the legacy stub below it. `movie` and
      `drawable` are what the platform decoders make of the bytes. */
  method CreateDecoder(bytes: seq<Byte>, format: AnimatedFormat, sdk: int,
                       movie: Option<MovieInfo>, drawable: Option<DrawableInfo>)
    returns (r: Result<AnimatedImageDecoder, DecoderError>)
    requires |bytes| <= Int32Max
    ensures r.Success? ==> r.value.Valid()
    ensures format == GIF ==> (r.Success? <==> movie.Some?) && (r.Success? ==> r.value.GifImpl? && fresh(r.value.gif))
    ensures format == GIF && r.Failure? ==> r.error == IllegalArgument
    ensures format == WEBP && sdk >= AnimatedWebPMinSdk ==>
      (r.Success? <==> drawable.Some?) && (r.Success? ==> r.value.WebPImpl? && fresh(r.value.webp))
    ensures format == WEBP && sdk >= AnimatedWebPMinSdk && r.Failure? ==> r.error == DecodeFailed
    ensures format == WEBP && sdk < AnimatedWebPMinSdk ==> r == Success(LegacyImpl(WebPDecoderLegacy(bytes)))
  {
    match format
    case GIF =>
      var g := NewGifDecoder(bytes, movie);
      if g.Failure? {
        return Failure(g.error);
      }
      r := Success(GifImpl(g.value));
    case WEBP =>
      if sdk >= AnimatedWebPMinSdk {
        var w := NewWebPDecoder(bytes, drawable);
        if w.Failure? {
          return Failure(w.error);
        }
        r := Success(WebPImpl(w.value));
      } else {
        r := Success(LegacyImpl(WebPDecoderLegacy(bytes)));
      }
  }
}
