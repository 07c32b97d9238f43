/** Value types shared by the loader, the caches and the transformer. */
module ImageTypes {
  import opened Common
  import opened Graphics

  /** The animated container formats the sniffer recognises. */
  datatype AnimatedFormat = GIF | WEBP

  /** `ImageTransformation`: the descriptor of a transform applied to a static
      image. Float parameters are exact reals. */
  datatype ImageTransformation =
    | None
    | RoundedCorners(radius: real)
    | Circle(borderWidth: real, borderColor: int)
    | Blur(blurRadius: real)

  /** `Circle()` with its default arguments: no border, opaque white. */
  const DefaultCircle: ImageTransformation := Circle(0.0, -1)

  /** `Blur()` with its default radius. */
  const DefaultBlur: ImageTransformation := Blur(15.0)

  /** The library module's `ImageData`: a decoded still image, or the original
      container bytes of an animation plus the metadata read once at ingest. */
  datatype ImageData =
    | StaticImage(bitmap: Bitmap)
    | AnimatedImage(bytes: seq<Byte>, format: AnimatedFormat, frameCount: int, width: int, height: int)

  /** The memory-cache key `"$url-${transformation.hashCode()}"`. */
  function CacheKey(url: string, transformationHash: Int32): (key: string)
    ensures |key| > |url| + 1 && key[..|url|] == url && key[|url|] == '-'
  {
    url + "-" + IntToString(transformationHash)
  }

  /** For urls without a '-' the key determines both the url and the hash. */
  lemma CacheKeyInjective(url1: string, h1: Int32, url2: string, h2: Int32)
    requires '-' !in url1 && '-' !in url2
    requires CacheKey(url1, h1) == CacheKey(url2, h2)
    ensures url1 == url2 && h1 == h2
  {
    var k := CacheKey(url1, h1);
    if |url1| == |url2| {
      assert url1 == k[..|url1|] == url2;
      assert k[|url1| + 1..] == IntToString(h1) && k[|url2| + 1..] == IntToString(h2);
      IntToStringInjective(h1, h2);
    }
  }

  /** Two different (url, hash) pairs can share a key: a url ending in '-'
      with a positive hash meets the shorter url with the negated hash. */
  lemma CacheKeyCollision()
    ensures CacheKey("a-", 1) == CacheKey("a", -1)
    ensures "a-" != "a"
  {
    assert IntToString(1) == "1";
    assert IntToString(-1) == "-1";
  }
}
