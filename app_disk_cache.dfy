/** `DiskCache` of the app module: PNG files named by the hex MD5 of their key,
    in one cache directory. The directory is modelled as a map from file name
    to bytes; how a write ends (completed, failed to open, failed part way) is a
    parameter, and so is whether a read throws. */
module AppDiskCaching {
  import opened Common
  import opened Graphics
  import opened Platform
  import opened HexFilenames

  /** `urlToFilename`: the lowercase hex of MD5(url bytes), no extension. */
  function UrlToFilename(codecs: Codecs, url: string): (name: string)
    ensures |name| == 32
    ensures forall i :: 0 <= i < |name| ==> IsHexDigit(name[i])
  {
    Hex(codecs.md5(codecs.utf8(url)))
  }

  /** Two urls share a file exactly when their digests agree; in particular
      the file is a function of the url alone. */
  lemma SameFileIffSameDigest(codecs: Codecs, url1: string, url2: string)
    ensures UrlToFilename(codecs, url1) == UrlToFilename(codecs, url2) <==>
      codecs.md5(codecs.utf8(url1)) == codecs.md5(codecs.utf8(url2))
  {
    HexInjective(codecs.md5(codecs.utf8(url1)), codecs.md5(codecs.utf8(url2)));
  }

  /** What `get` finds in `files`: the decode of the url's file when it
      exists (itself possibly null), null when it does not. */
  function Lookup(codecs: Codecs, files: map<string, seq<Byte>>, url: string): (r: Option<Bitmap>)
    ensures UrlToFilename(codecs, url) !in files ==> r.None?
    ensures UrlToFilename(codecs, url) in files ==> r == codecs.decodeBitmap(files[UrlToFilename(codecs, url)])
  {
    var name := UrlToFilename(codecs, url);
    if name in files then codecs.decodeBitmap(files[name]) else Option.None
  }

  class DiskCache {
    const codecs: Codecs
    /** The files of the cache directory. */
    var files: map<string, seq<Byte>>

    /** `DiskCache(context)`: the directory is created if missing and kept
        with whatever it already holds. */
    constructor (codecs: Codecs, existing: map<string, seq<Byte>>)
      ensures this.codecs == codecs && files == existing
    {
      this.codecs := codecs;
      files := existing;
    }

    /** `get`: null when the read throws, otherwise what `Lookup` finds. */
    method Get(url: string, readFails: bool) returns (r: Option<Bitmap>)
      ensures readFails ==> r.None?
      ensures !readFails ==> r == Lookup(codecs, files, url)
    {
      if readFails {
        return Option.None;
      }
      var name := UrlToFilename(codecs, url);
      if name in files {
        r := codecs.decodeBitmap(files[name]);
      } else {
        r := Option.None;
      }
    }

    /** `put`: writes the PNG encoding of the bitmap to the url's file; a
        failure is swallowed and no other file changes. */
    method Put(url: string, bitmap: Bitmap, outcome: WriteOutcome)
      modifies this
      ensures files == AfterWrite(old(files), UrlToFilename(codecs, url), codecs.compressPng(bitmap), outcome)
    {
      var name := UrlToFilename(codecs, url);
      files := AfterWrite(files, name, codecs.compressPng(bitmap), outcome);
    }

    /** `clear`: deletes every file of the directory. */
    method Clear()
      modifies this
      ensures files == map[]
      ensures forall url :: Lookup(codecs, files, url).None?
    {
      files := map[];
    }
  }

  /** A completed `put` is read back by the next `get` of the same url as the
      decode of the PNG encoding; a url with another digest reads what it read
      before, and so does every url after a write that failed to open. */
  lemma PutThenGet(codecs: Codecs, files: map<string, seq<Byte>>, url: string, other: string, bitmap: Bitmap,
                   outcome: WriteOutcome)
    ensures var after := AfterWrite(files, UrlToFilename(codecs, url), codecs.compressPng(bitmap), outcome);
      outcome.Written? ==> Lookup(codecs, after, url) == codecs.decodeBitmap(codecs.compressPng(bitmap))
    ensures var after := AfterWrite(files, UrlToFilename(codecs, url), codecs.compressPng(bitmap), outcome);
      codecs.md5(codecs.utf8(other)) != codecs.md5(codecs.utf8(url)) || outcome.OpenFailed? ==>
      Lookup(codecs, after, other) == Lookup(codecs, files, other)
  {
    SameFileIffSameDigest(codecs, url, other);
  }
}
