/** `DiskCache` of the library module: files named by the hex MD5 of the url
    plus an extension, probed ".gif", ".webp", then ".png". The directory is a
    map from file name to bytes. The library's own decoder factory is not part
    of this model: the sniffer of the app module's factory stands in for its
    `detectFormat`, and decoder construction is the function `openDecoder`,
    which gives the metadata of the decoder it built, or nothing when the
    construction throws. */
module LibDiskCaching {
  import opened Common
  import opened Graphics
  import opened Platform
  import opened HexFilenames
  import opened DecoderShape
  import opened ImageTypes
  import opened DecoderFactory

  const GifExtension: string := ".gif"
  const WebPExtension: string := ".webp"
  const PngExtension: string := ".png"

  /** The animated extensions in probing order. */
  const AnimatedExtensions: seq<string> := [GifExtension, WebPExtension]

  /** `urlToFilename(url, extension)`: the lowercase hex of MD5(url bytes) and
      the extension. */
  function UrlToFilename(codecs: Codecs, url: string, extension: string): (name: string)
    ensures |name| == 32 + |extension|
    ensures forall i :: 0 <= i < 32 ==> IsHexDigit(name[i])
    ensures name[32..] == extension
  {
    Hex(codecs.md5(codecs.utf8(url))) + extension
  }

  /** Two (url, extension) pairs share a file exactly when the digests and the
      extensions agree: one url's three files are distinct files. */
  lemma SameFileIff(codecs: Codecs, url1: string, ext1: string, url2: string, ext2: string)
    ensures UrlToFilename(codecs, url1, ext1) == UrlToFilename(codecs, url2, ext2) <==>
      codecs.md5(codecs.utf8(url1)) == codecs.md5(codecs.utf8(url2)) && ext1 == ext2
  {
    var d1, d2 := codecs.md5(codecs.utf8(url1)), codecs.md5(codecs.utf8(url2));
    var n1, n2 := UrlToFilename(codecs, url1, ext1), UrlToFilename(codecs, url2, ext2);
    if n1 == n2 {
      assert n1[..32] == Hex(d1) && n2[..32] == Hex(d2);
      HexInjective(d1, d2);
    }
  }

  /** The file extension `put` uses for an animated format. */
  function ExtensionOf(format: AnimatedFormat): (ext: string)
    ensures ext in AnimatedExtensions
  {
    match format
    case GIF => GifExtension
    case WEBP => WebPExtension
  }

  /** One animated probe: the file must exist, the sniffer must recognise its
      bytes and the decoder must construct; the result carries the bytes
      verbatim and the decoder's frame count and size. */
  function ProbeAnimated(codecs: Codecs, openDecoder: (seq<Byte>, AnimatedFormat) -> Option<DecoderMeta>,
                         files: map<string, seq<Byte>>, url: string, extension: string): (r: Option<ImageData>)
    ensures r.Some? ==> UrlToFilename(codecs, url, extension) in files
    ensures r.Some? ==> r.value.AnimatedImage? && r.value.bytes == files[UrlToFilename(codecs, url, extension)]
    ensures r.Some? ==> Some(r.value.format) == DetectFormat(r.value.bytes)
  {
    var name := UrlToFilename(codecs, url, extension);
    if name !in files then Option.None
    else
      var bytes := files[name];
      var format := DetectFormat(bytes);
      if format.None? then Option.None
      else
        var meta := openDecoder(bytes, format.value);
        if meta.None? then Option.None
        else Some(AnimatedImage(bytes, format.value, meta.value.frameCount, meta.value.width, meta.value.height))
  }

  /** The still-image probe: an existing ".png" file decides the answer, the
      decode of its bytes or null. */
  function ProbeStatic(codecs: Codecs, files: map<string, seq<Byte>>, url: string): (r: Option<ImageData>)
    ensures r.Some? ==> r.value.StaticImage? && UrlToFilename(codecs, url, PngExtension) in files
  {
    var name := UrlToFilename(codecs, url, PngExtension);
    if name !in files then Option.None
    else
      var bitmap := codecs.decodeBitmap(files[name]);
      if bitmap.Some? then Some(StaticImage(bitmap.value)) else Option.None
  }

  /** What `get` finds: the first animated probe that succeeds, else the
      still-image probe. */
  function Lookup(codecs: Codecs, openDecoder: (seq<Byte>, AnimatedFormat) -> Option<DecoderMeta>,
                  files: map<string, seq<Byte>>, url: string): (r: Option<ImageData>)
    ensures ProbeAnimated(codecs, openDecoder, files, url, GifExtension).Some? ==>
      r == ProbeAnimated(codecs, openDecoder, files, url, GifExtension)
    ensures (ProbeAnimated(codecs, openDecoder, files, url, GifExtension).None? &&
             ProbeAnimated(codecs, openDecoder, files, url, WebPExtension).Some?) ==>
      r == ProbeAnimated(codecs, openDecoder, files, url, WebPExtension)
    ensures r.Some? && r.value.StaticImage? <==>
      ProbeAnimated(codecs, openDecoder, files, url, GifExtension).None? &&
      ProbeAnimated(codecs, openDecoder, files, url, WebPExtension).None? &&
      ProbeStatic(codecs, files, url).Some?
  {
    var gif := ProbeAnimated(codecs, openDecoder, files, url, GifExtension);
    if gif.Some? then gif
    else
      var webp := ProbeAnimated(codecs, openDecoder, files, url, WebPExtension);
      if webp.Some? then webp else ProbeStatic(codecs, files, url)
  }

  class DiskCache {
    const codecs: Codecs
    const openDecoder: (seq<Byte>, AnimatedFormat) -> Option<DecoderMeta>
    /** The files of the cache directory. */
    var files: map<string, seq<Byte>>

    /** `DiskCache(context)`: the directory is created if missing and kept
        with whatever it already holds. */
    constructor (codecs: Codecs, openDecoder: (seq<Byte>, AnimatedFormat) -> Option<DecoderMeta>,
                 existing: map<string, seq<Byte>>)
      ensures this.codecs == codecs && this.openDecoder == openDecoder && files == existing
    {
      this.codecs := codecs;
      this.openDecoder := openDecoder;
      files := existing;
    }

    /** `get`: the loop over the animated extensions with its early return,
        then the ".png" file; a read that throws gives null. */
    method Get(url: string, readFails: bool) returns (r: Option<ImageData>)
      ensures readFails ==> r.None?
      ensures !readFails ==> r == Lookup(codecs, openDecoder, files, url)
    {
      if readFails {
        return Option.None;
      }
      for i := 0 to |AnimatedExtensions|
        invariant forall j :: 0 <= j < i ==> ProbeAnimated(codecs, openDecoder, files, url, AnimatedExtensions[j]).None?
      {
        var name := UrlToFilename(codecs, url, AnimatedExtensions[i]);
        if name in files {
          var bytes := files[name];
          var format := DetectFormat(bytes);
          if format.Some? {
            var meta := openDecoder(bytes, format.value);
            if meta.Some? {
              assert ProbeAnimated(codecs, openDecoder, files, url, AnimatedExtensions[i]).Some?;
              assert i == 1 ==> ProbeAnimated(codecs, openDecoder, files, url, AnimatedExtensions[0]).None?;
              // the decoder is released here; releasing has no observable effect
              return Some(AnimatedImage(bytes, format.value, meta.value.frameCount, meta.value.width, meta.value.height));
            }
          }
        }
      }
      assert ProbeAnimated(codecs, openDecoder, files, url, AnimatedExtensions[0]).None?;
      assert ProbeAnimated(codecs, openDecoder, files, url, AnimatedExtensions[1]).None?;
      var name := UrlToFilename(codecs, url, PngExtension);
      if name in files {
        var bitmap := codecs.decodeBitmap(files[name]);
        return if bitmap.Some? then Some(StaticImage(bitmap.value)) else Option.None;
      }
      return Option.None;
    }

    /** `put`: a still image goes to ".png" as PNG, an animation's bytes go
        verbatim to the extension of its format; no other file is touched and
        a failure is swallowed. */
    method Put(url: string, data: ImageData, outcome: WriteOutcome)
      modifies this
      ensures files == AfterWrite(old(files), StoredName(codecs, url, data), StoredBytes(codecs, data), outcome)
    {
      match data
      case StaticImage(bitmap) =>
        var name := UrlToFilename(codecs, url, PngExtension);
        files := AfterWrite(files, name, codecs.compressPng(bitmap), outcome);
      case AnimatedImage(bytes, format, _, _, _) =>
        var name := UrlToFilename(codecs, url, ExtensionOf(format));
        files := AfterWrite(files, name, bytes, outcome);
    }

    /** `clear`: deletes every file of the directory. */
    method Clear()
      modifies this
      ensures files == map[]
      ensures forall url :: Lookup(codecs, openDecoder, files, url).None?
    {
      files := map[];
    }
  }

  /** The file `put` writes for `data`. */
  function StoredName(codecs: Codecs, url: string, data: ImageData): (name: string)
    ensures data.StaticImage? ==> name == UrlToFilename(codecs, url, PngExtension)
    ensures data.AnimatedImage? ==> name == UrlToFilename(codecs, url, ExtensionOf(data.format))
  {
    match data
    case StaticImage(_) => UrlToFilename(codecs, url, PngExtension)
    case AnimatedImage(_, format, _, _, _) => UrlToFilename(codecs, url, ExtensionOf(format))
  }

  /** The bytes `put` writes for `data`: PNG for a still image, the original
      bytes for an animation. */
  function StoredBytes(codecs: Codecs, data: ImageData): (bytes: seq<Byte>)
    ensures data.StaticImage? ==> bytes == codecs.compressPng(data.bitmap)
    ensures data.AnimatedImage? ==> bytes == data.bytes
  {
    match data
    case StaticImage(bitmap) => codecs.compressPng(bitmap)
    case AnimatedImage(bytes, _, _, _, _) => bytes
  }

  /** Writing one of the url's files leaves the probe of any other file as it
      was. */
  lemma ProbeUnaffected(codecs: Codecs, openDecoder: (seq<Byte>, AnimatedFormat) -> Option<DecoderMeta>,
                        files: map<string, seq<Byte>>, url: string, written: string, probed: string,
                        bytes: seq<Byte>, outcome: WriteOutcome)
    requires written != probed
    ensures var after := AfterWrite(files, UrlToFilename(codecs, url, written), bytes, outcome);
      ProbeAnimated(codecs, openDecoder, after, url, probed) == ProbeAnimated(codecs, openDecoder, files, url, probed) &&
      (probed == PngExtension ==> ProbeStatic(codecs, after, url) == ProbeStatic(codecs, files, url))
  {
    SameFileIff(codecs, url, written, url, probed);
  }

  /** Animated round trip: after a completed `put` of an animation whose bytes
      the sniffer recognises as its format and whose decoder constructs, `get`
      returns those very bytes with the decoder's metadata, unless an earlier
      probed extension already answers. */
  lemma AnimatedRoundTrip(codecs: Codecs, openDecoder: (seq<Byte>, AnimatedFormat) -> Option<DecoderMeta>,
                          files: map<string, seq<Byte>>, url: string, data: ImageData)
    requires data.AnimatedImage?
    requires DetectFormat(data.bytes) == Some(data.format)
    requires openDecoder(data.bytes, data.format).Some?
    requires data.format == WEBP ==> ProbeAnimated(codecs, openDecoder, files, url, GifExtension).None?
    ensures var after := AfterWrite(files, StoredName(codecs, url, data), StoredBytes(codecs, data), WriteOutcome.Written);
      var meta := openDecoder(data.bytes, data.format).value;
      Lookup(codecs, openDecoder, after, url) ==
        Some(AnimatedImage(data.bytes, data.format, meta.frameCount, meta.width, meta.height))
  {
    if data.format == WEBP {
      ProbeUnaffected(codecs, openDecoder, files, url, WebPExtension, GifExtension, data.bytes, WriteOutcome.Written);
    }
  }

  /** A stale ".gif" the probe accepts shadows whatever is later written to
      the url's ".webp" or ".png" file: `put` never removes other extensions. */
  lemma StaleGifShadows(codecs: Codecs, openDecoder: (seq<Byte>, AnimatedFormat) -> Option<DecoderMeta>,
                        files: map<string, seq<Byte>>, url: string, data: ImageData, outcome: WriteOutcome)
    requires ProbeAnimated(codecs, openDecoder, files, url, GifExtension).Some?
    requires !(data.AnimatedImage? && data.format == GIF)
    ensures var after := AfterWrite(files, StoredName(codecs, url, data), StoredBytes(codecs, data), outcome);
      Lookup(codecs, openDecoder, after, url) == Lookup(codecs, openDecoder, files, url)
  {
    var written := if data.StaticImage? then PngExtension else ExtensionOf(data.format);
    ProbeUnaffected(codecs, openDecoder, files, url, written, GifExtension, StoredBytes(codecs, data), outcome);
  }

  /** Still-image round trip: when neither animated probe answers, a completed
      `put` of a bitmap is read back as the decode of its PNG encoding. */
  lemma StaticRoundTrip(codecs: Codecs, openDecoder: (seq<Byte>, AnimatedFormat) -> Option<DecoderMeta>,
                        files: map<string, seq<Byte>>, url: string, bitmap: Bitmap)
    requires ProbeAnimated(codecs, openDecoder, files, url, GifExtension).None?
    requires ProbeAnimated(codecs, openDecoder, files, url, WebPExtension).None?
    ensures var after := AfterWrite(files, UrlToFilename(codecs, url, PngExtension), codecs.compressPng(bitmap), WriteOutcome.Written);
      var decoded := codecs.decodeBitmap(codecs.compressPng(bitmap));
      Lookup(codecs, openDecoder, after, url) == if decoded.Some? then Some(StaticImage(decoded.value)) else Option.None
  {
    var b := codecs.compressPng(bitmap);
    ProbeUnaffected(codecs, openDecoder, files, url, PngExtension, GifExtension, b, WriteOutcome.Written);
    ProbeUnaffected(codecs, openDecoder, files, url, PngExtension, WebPExtension, b, WriteOutcome.Written);
  }
}
