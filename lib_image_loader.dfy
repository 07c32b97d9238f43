/** `ImageLoader` of the library module: the memory → disk → network chain over
    `ImageData`. Memory is keyed by the cache key, the disk by the raw url, and
    the disk keeps the original, untransformed data. The library's own
    `ImageTransformer`, `MemoryCache` and `ImageDownloader` are not part of this
    model: the transform is the function `transform`, the memory cache is the
    size-bounded LRU class with an abstract size function, and the download is
    a parameter. So are the transformation's `hashCode`, whether the disk read
    throws and how the disk write ends. */
module LibImageLoading {
  import opened Common
  import opened Platform
  import opened ImageTypes
  import opened MemoryCaching
  import opened Prefetching
  import LibDiskCaching

  class ImageLoader {
    const memory: MemoryCache<ImageData>
    const disk: LibDiskCaching.DiskCache
    /** `ImageTransformer.apply(data, transformation, context)`. */
    const transform: (ImageData, ImageTransformation) -> ImageData
    var prefetchJobs: map<string, Job>

    constructor (memory: MemoryCache<ImageData>, disk: LibDiskCaching.DiskCache,
                 transform: (ImageData, ImageTransformation) -> ImageData)
      ensures this.memory == memory && this.disk == disk && this.transform == transform
      ensures prefetchJobs == map[]
    {
      this.memory := memory;
      this.disk := disk;
      this.transform := transform;
      prefetchJobs := map[];
    }

    /** `load`. A memory hit is returned as is. A disk hit under the url is
        transformed, put in memory under the cache key and returned; the disk
        is not written. A download is transformed into memory while the disk
        receives the original under the url. Every answer that fits the memory
        cache on its own is there afterwards. */
    method Load(url: string, t: ImageTransformation, transformationHash: Int32, diskReadFails: bool,
                downloaded: Option<ImageData>, diskWrite: WriteOutcome)
      returns (r: Option<ImageData>)
      requires memory.Valid()
      modifies memory, disk
      ensures memory.Valid()
      ensures var key := CacheKey(url, transformationHash);
        var inMemory := Lookup(old(memory.entries), key);
        var onDisk := if diskReadFails then Option.None
                      else LibDiskCaching.Lookup(disk.codecs, disk.openDecoder, old(disk.files), url);
        (inMemory.Some? ==>
          r == inMemory && memory.entries == Touch(old(memory.entries), key) && disk.files == old(disk.files)) &&
        (inMemory.None? && onDisk.Some? ==>
          r == Some(transform(onDisk.value, t)) && disk.files == old(disk.files) &&
          memory.entries == Trim(old(memory.entries) + [Entry(key, r.value)], memory.sizeOf, memory.maxSize)) &&
        (inMemory.None? && onDisk.None? && downloaded.None? ==>
          r.None? && memory.entries == old(memory.entries) && disk.files == old(disk.files)) &&
        (inMemory.None? && onDisk.None? && downloaded.Some? ==>
          r == Some(transform(downloaded.value, t)) &&
          memory.entries == Trim(old(memory.entries) + [Entry(key, r.value)], memory.sizeOf, memory.maxSize) &&
          disk.files == AfterWrite(old(disk.files), LibDiskCaching.StoredName(disk.codecs, url, downloaded.value),
                                   LibDiskCaching.StoredBytes(disk.codecs, downloaded.value), diskWrite))
      ensures r.Some? && memory.sizeOf(r.value) <= memory.maxSize ==>
        Lookup(memory.entries, CacheKey(url, transformationHash)) == r
    {
      var key := CacheKey(url, transformationHash);
      var cached := memory.Get(key);
      if cached.Some? {
        TouchPreserves(old(memory.entries), key, memory.sizeOf);
        return cached;
      }
      var fromDisk := disk.Get(url, diskReadFails);
      if fromDisk.Some? {
        var transformed := transform(fromDisk.value, t);
        memory.Put(key, transformed);
        PutThenGetIfFits(old(memory.entries), key, transformed, memory.sizeOf, memory.maxSize);
        return Some(transformed);
      }
      if downloaded.Some? {
        var transformed := transform(downloaded.value, t);
        memory.Put(key, transformed);
        PutThenGetIfFits(old(memory.entries), key, transformed, memory.sizeOf, memory.maxSize);
        disk.Put(url, downloaded.value, diskWrite);
        return Some(transformed);
      }
      return Option.None;
    }

    /** `prefetch`: launches `load(url)` only when the url has no entry yet. */
    method Prefetch(url: string)
      modifies this
      ensures url in old(prefetchJobs) ==> prefetchJobs == old(prefetchJobs)
      ensures url !in old(prefetchJobs) ==>
        url in prefetchJobs && fresh(prefetchJobs[url]) &&
        prefetchJobs == AfterPrefetch(old(prefetchJobs), url, prefetchJobs[url]) &&
        prefetchJobs[url].url == url && prefetchJobs[url].transformation == ImageTransformation.None &&
        !prefetchJobs[url].cancelled
    {
      if url in prefetchJobs {
        return;
      }
      var job := new Job.Launch(url);
      prefetchJobs := prefetchJobs[url := job];
    }

    /** `cancelPrefetch`: cancels the url's job, if any, and removes its entry. */
    method CancelPrefetch(url: string)
      modifies this, if url in prefetchJobs then {prefetchJobs[url]} else {}
      ensures prefetchJobs == AfterCancel(old(prefetchJobs), url)
      ensures url in old(prefetchJobs) ==> old(prefetchJobs)[url].cancelled
    {
      if url in prefetchJobs {
        prefetchJobs[url].Cancel();
      }
      prefetchJobs := prefetchJobs - {url};
    }
  }
}
