/** `ImageLoader` of the app module: the memory → disk → network chain over
    bitmaps, with every cache keyed by the cache key, and the prefetch
    registry. The app's downloader hands back `ImageData`, which this loader
    uses as a bitmap; the download is therefore a parameter giving a bitmap or
    nothing. So are the transformation's `hashCode`, whether the disk read
    throws, how the disk write ends and whether RenderScript completes. */
module AppImageLoading {
  import opened Common
  import opened Graphics
  import opened Platform
  import opened ImageTypes
  import opened ImageTransforming
  import opened MemoryCaching
  import opened Prefetching
  import AppDiskCaching

  class ImageLoader {
    /** The process-wide `MemoryCache` object. */
    const memory: MemoryCache<Bitmap>
    const disk: AppDiskCaching.DiskCache
    /** Whether a context is at hand for the blur. */
    const hasContext: bool
    var prefetchJobs: map<string, Job>

    constructor (memory: MemoryCache<Bitmap>, disk: AppDiskCaching.DiskCache, hasContext: bool)
      ensures this.memory == memory && this.disk == disk && this.hasContext == hasContext
      ensures prefetchJobs == map[]
    {
      this.memory := memory;
      this.disk := disk;
      this.hasContext := hasContext;
      prefetchJobs := map[];
    }

    /** `load`. A memory hit is returned as is. A disk hit under the cache key
        is copied into memory. A download is transformed (the transform never
        gives null, so the source's null check always passes) and the result is
        stored in memory and on disk under the cache key.
        Every answer that fits the memory cache on its own is there afterwards. */
    method Load(url: string, t: ImageTransformation, transformationHash: Int32, diskReadFails: bool,
                downloaded: Option<Bitmap>, renderScriptCompletes: bool, diskWrite: WriteOutcome)
      returns (r: Option<Bitmap>)
      requires memory.Valid()
      requires downloaded.Some? ==> downloaded.value.width > 0 && downloaded.value.height > 0
      modifies memory, disk
      ensures memory.Valid()
      ensures var inMemory := Lookup(old(memory.entries), CacheKey(url, transformationHash));
        inMemory.Some? ==>
          r == inMemory && memory.entries == Touch(old(memory.entries), CacheKey(url, transformationHash)) &&
          disk.files == old(disk.files)
      ensures var key := CacheKey(url, transformationHash);
        var onDisk := if diskReadFails then Option.None else AppDiskCaching.Lookup(disk.codecs, old(disk.files), key);
        Lookup(old(memory.entries), key).None? && onDisk.Some? ==>
          r == onDisk && disk.files == old(disk.files) &&
          memory.entries == Trim(old(memory.entries) + [Entry(key, onDisk.value)], memory.sizeOf, memory.maxSize)
      ensures var key := CacheKey(url, transformationHash);
        var onDisk := if diskReadFails then Option.None else AppDiskCaching.Lookup(disk.codecs, old(disk.files), key);
        Lookup(old(memory.entries), key).None? && onDisk.None? && downloaded.None? ==>
          r.None? && memory.entries == old(memory.entries) && disk.files == old(disk.files)
      ensures var key := CacheKey(url, transformationHash);
        var onDisk := if diskReadFails then Option.None else AppDiskCaching.Lookup(disk.codecs, old(disk.files), key);
        Lookup(old(memory.entries), key).None? && onDisk.None? && downloaded.Some? ==>
          r.Some? && IsTransformed(downloaded.value, t, hasContext, renderScriptCompletes, r.value) &&
          (r != downloaded ==> fresh(r.value))
      ensures var key := CacheKey(url, transformationHash);
        var onDisk := if diskReadFails then Option.None else AppDiskCaching.Lookup(disk.codecs, old(disk.files), key);
        Lookup(old(memory.entries), key).None? && onDisk.None? && downloaded.Some? ==>
          r.Some? &&
          memory.entries == Trim(old(memory.entries) + [Entry(key, r.value)], memory.sizeOf, memory.maxSize) &&
          disk.files == AfterWrite(old(disk.files), AppDiskCaching.UrlToFilename(disk.codecs, key),
                                   disk.codecs.compressPng(r.value), diskWrite)
      ensures r.Some? && memory.sizeOf(r.value) <= memory.maxSize ==>
        Lookup(memory.entries, CacheKey(url, transformationHash)) == r
    {
      var key := CacheKey(url, transformationHash);
      var cached := memory.Get(key);
      if cached.Some? {
        TouchPreserves(old(memory.entries), key, memory.sizeOf);
        return cached;
      }
      var fromDisk := disk.Get(key, diskReadFails);
      if fromDisk.Some? {
        memory.Put(key, fromDisk.value);
        PutThenGetIfFits(old(memory.entries), key, fromDisk.value, memory.sizeOf, memory.maxSize);
        return fromDisk;
      }
      if downloaded.Some? {
        var transformed := Apply(downloaded.value, t, hasContext, renderScriptCompletes);
        ghost var entriesBefore := memory.entries;
        ghost var out := transformed.value;
        ghost var drawn := out.content;
        if transformed.Some? {
          memory.Put(key, transformed.value);
          PutThenGetIfFits(entriesBefore, key, transformed.value, memory.sizeOf, memory.maxSize);
          disk.Put(key, transformed.value, diskWrite);
        }
        assert out.content == drawn;
        return transformed;
      }
      return Option.None;
    }

    /** `prefetch`: launches `load(url)` only when the url has no entry yet. */
    method Prefetch(url: string)
      modifies this
      ensures url in old(prefetchJobs) ==> prefetchJobs == old(prefetchJobs)
      ensures url !in old(prefetchJobs) ==>
        url in prefetchJobs && fresh(prefetchJobs[url]) && prefetchJobs == AfterPrefetch(old(prefetchJobs), url, prefetchJobs[url]) &&
        prefetchJobs[url].url == url && prefetchJobs[url].transformation == ImageTransformation.None && !prefetchJobs[url].cancelled
    {
      if url in prefetchJobs {
        return;
      }
      var job := new Job.Launch(url);
      prefetchJobs := prefetchJobs[url := job];
    }

    /** `cancelPrefetch`: cancels the url's job, if any, and removes its entry. */
    method CancelPrefetch(url: string)
      modifies this, if url in prefetchJobs then {prefetchJobs[url]} else {}
      ensures prefetchJobs == AfterCancel(old(prefetchJobs), url)
      ensures url in old(prefetchJobs) ==> old(prefetchJobs)[url].cancelled
    {
      if url in prefetchJobs {
        prefetchJobs[url].Cancel();
      }
      prefetchJobs := prefetchJobs - {url};
    }
  }
}
