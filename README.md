# Custom Image Loader — a Dafny model of its core

This project models the core of an Android image loader written in Kotlin.
The loader comes as two modules: an app module (`com.jasmeet.customimageloader`)
and a library module (`com.jasmeet.imageloader`). The model covers:

- **Format sniffing** (`AnimatedImageDecoderFactory.detectFormat`): GIF by its
  `GIF` signature, animated WebP by `RIFF`/`WEBP` and the animation bit of the
  VP8X flags byte.
- **Animated decoders**:
  - the GIF decoder: the Movie metadata, the frame-count heuristic over `0x2C`
    image separators, and the average frame duration;
  - the WebP decoder, including the little-endian RIFF chunk walk that counts
    `ANMF` frames and looks for the `ANIM` chunk;
  - the pre-API-28 WebP stub.
- **The downloader's** GIF-versus-bitmap decision and its `AnimatedGif`
  equality and hash code.
- **`BitmapPool`**: queues of reusable bitmaps keyed by size and config, at
  most six per key.
- **`ImageTransformer`**: the geometry of rounded corners, the centred circle
  crop with its border ring, and the blur radius clamp.
- **`MemoryCache`**: an `LruCache` sized in kilobytes, modelled as a list of
  entries ordered from least to most recently used.
- **Both `DiskCache`s**: files named by the hex MD5 of the url. The app cache
  stores PNGs. The library cache stores `.gif`/`.webp` bytes verbatim and
  still images as `.png`, and probes the animated extensions first on a read.
- **Both `ImageLoader`s**: memory, then disk, then download, then transform.
  Also the `prefetch`/`cancelPrefetch` registry of jobs keyed by url.

The Kotlin `Int` is modelled explicitly: chunk sizes are read as signed 32-bit
values, offsets and hash codes wrap around, and `/` and `%` truncate toward
zero.

Foreign code stays uninterpreted, passed in as `Platform.Codecs`:

- MD5;
- UTF-8 encoding;
- `BitmapFactory`;
- PNG compression.

What the platform does that the model cannot see is also a parameter:

- whether a read or write throws, or how far a write got;
- what the network returned;
- whether the Movie or the drawable decoded;
- the API level.

The memory-cache key `"$url-${transformation.hashCode()}"` is not injective:
`ImageTypes.CacheKeyCollision` shows two different (url, hash) pairs with the
same key.

## Model

| member | source | states |
|---|---|---|
| DecoderShape.AverageFrameDuration | imageloader/src/main/java/com/jasmeet/imageloader/decoder/GifDecoder.kt:76-84 | the integer average duration / frameCount when both are positive (between 0 and duration, the floor of the quotient), else the 100 ms default |
| GifDecoding.SeparatorCountIsMultiplicity | imageloader/src/main/java/com/jasmeet/imageloader/decoder/GifDecoder.kt:97-103 | the separator count is the number of 0x2C bytes (their multiplicity) in the scanned bytes |
| GifDecoding.SeparatorCount | imageloader/src/main/java/com/jasmeet/imageloader/decoder/GifDecoder.kt:97-103 | the number of 0x2C bytes in the scanned bytes, never more than their length |
| GifDecoding.CountGifFrames | imageloader/src/main/java/com/jasmeet/imageloader/decoder/GifDecoder.kt:97-103 | the loop over indices 0 until size-1 returns max(number of 0x2C bytes among all but the last byte, 1), so between 1 and max(size-1, 1) |
| GifDecoding.LastByteNeverCounted | imageloader/src/main/java/com/jasmeet/imageloader/decoder/GifDecoder.kt:99 | the last byte never contributes to the count, whatever its value |
| GifDecoding.GifFrameCount | imageloader/src/main/java/com/jasmeet/imageloader/decoder/GifDecoder.kt:37-41 | frameCount is at least 1: duration/100 for durations of at least 100 ms, 1 for 1..99 ms, the separator heuristic for a non-positive duration |
| GifDecoding.GifFrameDurationBounds | imageloader/src/main/java/com/jasmeet/imageloader/decoder/GifDecoder.kt:37-84 | the reported frame duration is always positive, lies in [100, 199] when duration >= 100, equals the duration below 100 ms and is 100 when the duration is unknown |
| GifDecoding.GifDecoder.constructor | imageloader/src/main/java/com/jasmeet/imageloader/decoder/GifDecoder.kt:15-42 | metadata taken from the Movie, frameCount per the rule above, looping, not released |
| GifDecoding.GifDecoder.GetFrameDuration | imageloader/src/main/java/com/jasmeet/imageloader/decoder/GifDecoder.kt:76-84 | independent of the frame index, always positive, with the bounds above |
| GifDecoding.GifDecoder.DecodeFrame | imageloader/src/main/java/com/jasmeet/imageloader/decoder/GifDecoder.kt:44-74 | fails with the released error exactly when released; otherwise reports GetFrameDuration of the index |
| GifDecoding.GifDecoder.Release | imageloader/src/main/java/com/jasmeet/imageloader/decoder/GifDecoder.kt:86-91 | afterwards the decoder is released (and stays so: nothing clears the flag) |
| GifDecoding.NewGifDecoder | imageloader/src/main/java/com/jasmeet/imageloader/decoder/GifDecoder.kt:17-18 | construction fails with IllegalArgumentException exactly when the Movie decode yields null |
| WebPChunks.ReadInt32LE | app/src/main/java/com/jasmeet/customimageloader/decoder/WebPDecoder.kt:160-165 | a signed 32-bit value, negative exactly when the top byte is at least 0x80, and the unsigned little-endian value otherwise |
| WebPChunks.ReadWriteRoundTrip | app/src/main/java/com/jasmeet/customimageloader/decoder/WebPDecoder.kt:160-165 | reading back the little-endian encoding of any Int gives the Int |
| WebPChunks.WriteReadRoundTrip | app/src/main/java/com/jasmeet/customimageloader/decoder/WebPDecoder.kt:160-165 | encoding the value read gives back the four bytes read |
| WebPChunks.IsTagIsSliceEquality | app/src/main/java/com/jasmeet/customimageloader/decoder/WebPDecoder.kt:109 | the byte-by-byte tag test is the comparison of the four bytes at the offset with the tag |
| WebPChunks.ChunkSize | app/src/main/java/com/jasmeet/customimageloader/decoder/WebPDecoder.kt:144 | the size after a chunk tag is an Int, negative exactly when byte offset+7 is at least 0x80 |
| WebPChunks.NextOffset | app/src/main/java/com/jasmeet/customimageloader/decoder/WebPDecoder.kt:150 | the next offset is 8 + size + (size % 2) past the current one, in wrapping Int arithmetic |
| WebPChunks.SelfLoopIff | app/src/main/java/com/jasmeet/customimageloader/decoder/WebPDecoder.kt:150 | a step leaves the offset unchanged exactly for sizes -8 and -7 (truncating %) |
| WebPChunks.ForwardStep | app/src/main/java/com/jasmeet/customimageloader/decoder/WebPDecoder.kt:150 | with a non-negative size the offset grows by at least 8 or wraps negative |
| WebPChunks.FrameCountResult | app/src/main/java/com/jasmeet/customimageloader/decoder/WebPDecoder.kt:153-157 | null when the walk threw or met no ANMF chunk, else the count (at least 1) |
| WebPChunks.CountWalk | app/src/main/java/com/jasmeet/customimageloader/decoder/WebPDecoder.kt:140-151 | the walk from an offset at or past size - 8 finishes with no frames; a finished walk counts at most one ANMF chunk per step of fuel |
| WebPChunks.IsTag | app/src/main/java/com/jasmeet/customimageloader/decoder/WebPDecoder.kt:143 | the four bytes at the offset equal the tag, byte by byte (IsTagIsSliceEquality ties this to the slice comparison) |
| WebPChunks.CountWalkOutcomeUnique | app/src/main/java/com/jasmeet/customimageloader/decoder/WebPDecoder.kt:142-151 | every amount of fuel with which the walk ends gives the same outcome, so the walk's result does not depend on the fuel |
| WebPChunks.ParseWebPFrameCount | app/src/main/java/com/jasmeet/customimageloader/decoder/WebPDecoder.kt:137-158 | the loop as written returns the ANMF count (or null) of the walk from offset 12, given any fuel with which that walk ends |
| WebPChunks.DurationWalkEndsWhenCountWalkDoes | app/src/main/java/com/jasmeet/customimageloader/decoder/WebPDecoder.kt:104-132 | the duration walk ends whenever the frame-count walk does |
| WebPChunks.ParseWebPDuration | app/src/main/java/com/jasmeet/customimageloader/decoder/WebPDecoder.kt:104-132 | given any fuel within which the duration walk ends, the loop as written finishes and returns null on every path |
| WebPChunks.SelfLoopDiverges | app/src/main/java/com/jasmeet/customimageloader/decoder/WebPDecoder.kt:142-151 | from an in-range offset whose size is -8 or -7 no amount of fuel ends the walk |
| WebPChunks.MinusEightDiverges | app/src/main/java/com/jasmeet/customimageloader/decoder/WebPDecoder.kt:142-151 | a buffer with F8 FF FF FF at bytes 16..19 makes the frame-count loop spin forever |
| WebPChunks.MinusEightStallsDurationWalk | app/src/main/java/com/jasmeet/customimageloader/decoder/WebPDecoder.kt:108-127 | the same buffer, when its first tag is neither ANIM nor ANMF, makes the duration loop spin forever |
| WebPChunks.ForwardWalkEnds | app/src/main/java/com/jasmeet/customimageloader/decoder/WebPDecoder.kt:142-151 | when every chunk header the walk visits declares a non-negative size, |bytes| - offset steps end the walk; payload bytes are unconstrained |
| WebPChunks.NonNegativeSizesHalt | app/src/main/java/com/jasmeet/customimageloader/decoder/WebPDecoder.kt:142-151 | hence the walk as written ends on every buffer whose walk meets no negative chunk size |
| WebPChunks.CheckedWalk | app/src/main/java/com/jasmeet/customimageloader/decoder/WebPDecoder.kt:142-151 | the corrected walk (negative size = malformed) ends on every buffer |
| WebPChunks.ParseWebPFrameCountChecked | app/src/main/java/com/jasmeet/customimageloader/decoder/WebPDecoder.kt:137-158 | the corrected loop returns the ANMF count (or null) of the corrected walk |
| WebPChunks.ParseWebPDurationChecked | app/src/main/java/com/jasmeet/customimageloader/decoder/WebPDecoder.kt:104-132 | the corrected duration loop ends on every buffer and returns null |
| WebPChunks.CheckedWalkAgrees | app/src/main/java/com/jasmeet/customimageloader/decoder/WebPDecoder.kt:142-151 | when the walk meets no negative chunk size, the corrected walk ends exactly where the walk as written does |
| WebPChunks.MinusEightChecked | app/src/main/java/com/jasmeet/customimageloader/decoder/WebPDecoder.kt:150-157 | the corrected walk ends the diverging buffer as malformed (null) |
| WebPChunks.NegativeSizeDisagrees | app/src/main/java/com/jasmeet/customimageloader/decoder/WebPDecoder.kt:140-157 | on a 30-byte buffer with an ANMF chunk of size -2 at offset 12, the walk as written ends with one frame, while the corrected walk stops at the negative size |
| WebPDecoding.EstimateDuration | app/src/main/java/com/jasmeet/customimageloader/decoder/WebPDecoder.kt:89-94 | the parsed duration, else 2000 ms |
| WebPDecoding.EstimateFrameCount | app/src/main/java/com/jasmeet/customimageloader/decoder/WebPDecoder.kt:96-99 | the parsed ANMF count, else 20 |
| WebPDecoding.FrameCountOfWalk | app/src/main/java/com/jasmeet/customimageloader/decoder/WebPDecoder.kt:96-99 | the frame count settled on is at least 1: the ANMF count when positive, 20 when none was met or the walk threw |
| WebPDecoding.WebPDecoder.constructor | app/src/main/java/com/jasmeet/customimageloader/decoder/WebPDecoder.kt:28-41 | size from the drawable, duration always 2000, frameCount from the (corrected) walk and at least 1, looping, not running |
| WebPDecoding.WebPDecoder.GetFrameDuration | app/src/main/java/com/jasmeet/customimageloader/decoder/WebPDecoder.kt:76-83 | the index-independent average 2000 / frameCount, within [0, 2000], and 0 exactly when frameCount exceeds 2000 |
| WebPDecoding.WebPDecoder.DecodeFrame | app/src/main/java/com/jasmeet/customimageloader/decoder/WebPDecoder.kt:43-74 | the drawable is running afterwards and the result is GetFrameDuration |
| WebPDecoding.WebPDecoder.Release | app/src/main/java/com/jasmeet/customimageloader/decoder/WebPDecoder.kt:85-87 | the drawable is stopped; there is no released guard |
| WebPDecoding.NewWebPDecoder | app/src/main/java/com/jasmeet/customimageloader/decoder/WebPDecoder.kt:18-29 | construction fails exactly when the platform cannot decode the drawable |
| WebPDecoding.WebPDecoderLegacy.DecodeFrame | app/src/main/java/com/jasmeet/customimageloader/decoder/WebPDecoder.kt:180-182 | always fails with UnsupportedOperationException |
| WebPDecoding.WebPDecoderLegacy.GetFrameDuration | app/src/main/java/com/jasmeet/customimageloader/decoder/WebPDecoder.kt:184 | always 0 |
| DecoderFactory.DetectFormat | app/src/main/java/com/jasmeet/customimageloader/decoder/AnimatedImageDecoderFactory.kt:27-56 | a non-null answer needs at least 12 bytes |
| DecoderFactory.HasGifSignature | app/src/main/java/com/jasmeet/customimageloader/decoder/AnimatedImageDecoderFactory.kt:30-35 | bytes 0..2 are "G", "I", "F"; the version bytes are not looked at |
| DecoderFactory.HasRiffWebPSignature | app/src/main/java/com/jasmeet/customimageloader/decoder/AnimatedImageDecoderFactory.kt:37-46 | bytes 0..3 spell "RIFF" and bytes 8..11 spell "WEBP" |
| DecoderFactory.AnimationBit | app/src/main/java/com/jasmeet/customimageloader/decoder/AnimatedImageDecoderFactory.kt:48-51 | `(flags and 0x02) != 0`: bit 1 of the flags byte is set exactly when the byte modulo 4 is 2 or 3 |
| DecoderFactory.ShortBuffersRejected | app/src/main/java/com/jasmeet/customimageloader/decoder/AnimatedImageDecoderFactory.kt:28 | fewer than 12 bytes give null, even "GIF89a" |
| DecoderFactory.DetectGifIff | app/src/main/java/com/jasmeet/customimageloader/decoder/AnimatedImageDecoderFactory.kt:30-35 | GIF exactly for 12 or more bytes starting "GIF"; the version bytes are not read |
| DecoderFactory.DetectWebPIff | app/src/main/java/com/jasmeet/customimageloader/decoder/AnimatedImageDecoderFactory.kt:37-52 | WEBP exactly when "RIFF" at 0..3, "WEBP" at 8..11, length >= 21 and bit 1 of byte 20 set |
| DecoderFactory.StillWebPRejected | app/src/main/java/com/jasmeet/customimageloader/decoder/AnimatedImageDecoderFactory.kt:48-55 | a RIFF/WEBP buffer of 12..20 bytes or with the animation bit clear gives null |
| DecoderFactory.DetectFormatReadsOnlySignature | app/src/main/java/com/jasmeet/customimageloader/decoder/AnimatedImageDecoderFactory.kt:27-56 | the answer depends only on the length and bytes 0..3, 8..11 and 20 (not the RIFF size nor the chunk tag) |
| DecoderFactory.SignaturesExclusive | app/src/main/java/com/jasmeet/customimageloader/decoder/AnimatedImageDecoderFactory.kt:31-41 | no buffer carries both signatures |
| DecoderFactory.DecoderShapeInvariant | app/src/main/java/com/jasmeet/customimageloader/decoder/AnimatedImageDecoderFactory.kt:11-21 | every decoder the factory builds reports at least one frame; all but the legacy stub loop |
| DecoderFactory.CreateDecoder | app/src/main/java/com/jasmeet/customimageloader/decoder/AnimatedImageDecoderFactory.kt:11-21 | GIF gives a GifDecoder (or its construction error); WEBP gives a WebPDecoder from API level 28 on and the legacy stub below |
| ImageDownloading.DetectedGifIsGif | app/src/main/java/com/jasmeet/customimageloader/utils/ImageDownloader.kt:55-60 | whatever the factory sniffer calls GIF, isGif accepts |
| ImageDownloading.IsGif | app/src/main/java/com/jasmeet/customimageloader/utils/ImageDownloader.kt:55-60 | at least 6 bytes and "GIF" at bytes 0..2; DetectedGifIsGif and IsGifLooserThanDetectFormat compare it with the sniffer |
| ImageDownloading.IsGifLooserThanDetectFormat | app/src/main/java/com/jasmeet/customimageloader/utils/ImageDownloader.kt:55-60 | the converse fails: isGif accepts the 6-byte "GIF89a" the sniffer rejects |
| ImageDownloading.GetGifFrameCount | app/src/main/java/com/jasmeet/customimageloader/utils/ImageDownloader.kt:62-69 | max(number of 0x2C bytes among all but the last byte, 1), so at least 1 |
| ImageDownloading.Download | app/src/main/java/com/jasmeet/customimageloader/utils/ImageDownloader.kt:33-53 | a failed fetch gives null; GIF bytes become AnimatedGif(bytes, frame count) exactly when isGif holds; other bytes become StaticImage exactly when they decode; else null |
| ImageDownloading.GifEquals | app/src/main/java/com/jasmeet/customimageloader/utils/ImageDownloader.kt:12-22 | equal exactly to an AnimatedGif with the same frame count and byte contents |
| ImageDownloading.GifHashCode | app/src/main/java/com/jasmeet/customimageloader/utils/ImageDownloader.kt:24-28 | an Int: 31 * frameCount + contentHashCode with wrap-around |
| ImageDownloading.ContentHashCode | app/src/main/java/com/jasmeet/customimageloader/utils/ImageDownloader.kt:26 | the `contentHashCode` of the bytes: an Int, folding 31 * h + signed byte from 1; EqualsImpliesEqualHash and HashCollision are stated with it |
| ImageDownloading.EqualsImpliesEqualHash | app/src/main/java/com/jasmeet/customimageloader/utils/ImageDownloader.kt:12-28 | equal values have equal hash codes |
| ImageDownloading.HashCollision | app/src/main/java/com/jasmeet/customimageloader/utils/ImageDownloader.kt:24-28 | the hash is not injective: ([0], 1) and ([31], 0) both hash to 62 yet differ |
| BitmapPooling.GetKeyInjective | app/src/main/java/com/jasmeet/customimageloader/decoder/BitmapPool.kt:73-75 | for any Int sizes, two keys are equal exactly when width, height and config are: the queue is determined by them alone |
| BitmapPooling.GetKey | app/src/main/java/com/jasmeet/customimageloader/decoder/BitmapPool.kt:73-75 | `"$width-$height-${config.name}"`; GetKeyInjective shows it names one (width, height, config) |
| BitmapPooling.ConfigName | app/src/main/java/com/jasmeet/customimageloader/decoder/BitmapPool.kt:74 | the config's name: at least 7 characters and without a dash, so the key splits back into its parts |
| BitmapPooling.HeadMatches | app/src/main/java/com/jasmeet/customimageloader/decoder/BitmapPool.kt:27-30 | a bitmap queued under the key of a size and config has exactly that size and config, so that size is positive |
| BitmapPooling.RecycleAll | app/src/main/java/com/jasmeet/customimageloader/decoder/BitmapPool.kt:66 | every bitmap of a queue is recycled |
| BitmapPooling.BitmapPool.constructor | app/src/main/java/com/jasmeet/customimageloader/decoder/BitmapPool.kt:11 | the pool starts empty |
| BitmapPooling.BitmapPool.Get | app/src/main/java/com/jasmeet/customimageloader/decoder/BitmapPool.kt:20-38 | one pop at the front of the matching queue: a live mutable head is erased and returned, a dead one is dropped for a fresh bitmap, a missing or empty queue leaves the pool as it was; no queue is created; queues stay at most six; the result has the requested size and config; a non-positive width or height gives the createBitmap failure (None), and never matches a queue |
| BitmapPooling.BitmapPool.Recycle | app/src/main/java/com/jasmeet/customimageloader/decoder/BitmapPool.kt:43-58 | recycled, immutable and config-less bitmaps leave the pool alone; otherwise appended at the back when its queue holds fewer than 6, else recycled; queues stay at most 6, and duplicate-free when the bitmap was not pooled |
| BitmapPooling.BitmapPool.Clear | app/src/main/java/com/jasmeet/customimageloader/decoder/BitmapPool.kt:63-71 | every pooled bitmap is recycled and the pool is empty |
| ImageTransforming.ClampBlurRadius | app/src/main/java/com/jasmeet/customimageloader/utils/ImageTransformer.kt:84 | the radius coerced into [0, 25] |
| ImageTransforming.ClampIdempotent | app/src/main/java/com/jasmeet/customimageloader/utils/ImageTransformer.kt:84 | clamping twice is clamping once |
| ImageTransforming.CenteredSquare | app/src/main/java/com/jasmeet/customimageloader/utils/ImageTransformer.kt:59-61 | a min(w, h) square inside the input, flush with one axis and centred to within one pixel on the other |
| ImageTransforming.BorderRadius | app/src/main/java/com/jasmeet/customimageloader/utils/ImageTransformer.kt:69 | the ring radius plus half the border width is half the size: the ring touches the edge |
| ImageTransforming.CircleOps | app/src/main/java/com/jasmeet/customimageloader/utils/ImageTransformer.kt:56-70 | the circle, the centred crop drawn SRC_IN, and the border ring only for a positive width |
| ImageTransforming.ApplyRoundedCorners | app/src/main/java/com/jasmeet/customimageloader/utils/ImageTransformer.kt:34-46 | a fresh mutable ARGB_8888 bitmap of the input size holding the rounded rectangle and the input drawn SRC_IN |
| ImageTransforming.ApplyCircle | app/src/main/java/com/jasmeet/customimageloader/utils/ImageTransformer.kt:48-73 | a fresh ARGB_8888 square of side min(width, height) holding CircleOps |
| ImageTransforming.ApplyBlur | app/src/main/java/com/jasmeet/customimageloader/utils/ImageTransformer.kt:75-96 | never null: the input itself without a context, when RenderScript throws, or for a config-less input (copyTo(null) throws into the catch); otherwise a fresh bitmap of the input size and config holding the blur with the clamped radius |
| ImageTransforming.Apply | app/src/main/java/com/jasmeet/customimageloader/utils/ImageTransformer.kt:25-32 | never null, and IsTransformed of the input: None and a falling-back blur return the very same bitmap (exactly those cases), every other case a fresh bitmap with the size, config and drawing of its transform |
| ImageTypes.CacheKey | imageloader/src/main/java/com/jasmeet/imageloader/utils/ImageLoader.kt:18 | the key starts with the url followed by "-" |
| Common.IntToString | app/src/main/java/com/jasmeet/customimageloader/utils/ImageLoader.kt:18 | the decimal rendering a string template gives an Int: never empty, and injective (IntToStringInjective) |
| ImageTypes.CacheKeyInjective | app/src/main/java/com/jasmeet/customimageloader/utils/ImageLoader.kt:18 | for urls without "-" the key determines url and hash |
| ImageTypes.CacheKeyCollision | imageloader/src/main/java/com/jasmeet/imageloader/utils/ImageLoader.kt:18 | in general it does not: ("a-", 1) and ("a", -1) share a key |
| MemoryCaching.TouchPreserves | app/src/main/java/com/jasmeet/customimageloader/utils/MemoryCache.kt:16 | the access that get makes keeps every value and the total size |
| MemoryCaching.Lookup | app/src/main/java/com/jasmeet/customimageloader/utils/MemoryCache.kt:16 | some entry holds the key exactly when a value is found, and the value found is stored under that key |
| MemoryCaching.Touch | app/src/main/java/com/jasmeet/customimageloader/utils/MemoryCache.kt:16 | an access makes the entry under the key the most recent one and leaves an absent key alone |
| MemoryCaching.TouchMovesToEnd | app/src/main/java/com/jasmeet/customimageloader/utils/MemoryCache.kt:16 | with distinct keys, an access to entry i gives the other entries in their old least-to-most-recent order followed by entry i, so it changes which entry is evicted next only by sparing entry i |
| MemoryCaching.Trim | app/src/main/java/com/jasmeet/customimageloader/utils/MemoryCache.kt:10-14 | trimToSize never adds entries, and what it keeps fits the limit in total size or is empty (TrimIsMinimalSuffix: it is the shortest eviction from the least recently used end) |
| MemoryCaching.TrimIsMinimalSuffix | app/src/main/java/com/jasmeet/customimageloader/utils/MemoryCache.kt:10-14 | trimming evicts least recently used entries first, stops as soon as the rest fits, and the rest fits or is empty |
| MemoryCaching.MemoryCache.constructor | app/src/main/java/com/jasmeet/customimageloader/utils/MemoryCache.kt:10 | an empty cache of the given positive capacity and size function |
| MemoryCaching.MemoryCache.Get | app/src/main/java/com/jasmeet/customimageloader/utils/MemoryCache.kt:16 | the stored value (null if absent), made most recently used |
| MemoryCaching.MemoryCache.TrimToSize | app/src/main/java/com/jasmeet/customimageloader/utils/MemoryCache.kt:10-14 | evicts from the least recently used end down to the limit |
| MemoryCaching.MemoryCache.Put | app/src/main/java/com/jasmeet/customimageloader/utils/MemoryCache.kt:17-19 | a present key is only touched (first writer wins); an absent one is appended and the cache trimmed; total size stays within capacity |
| MemoryCaching.MemoryCache.Clear | app/src/main/java/com/jasmeet/customimageloader/utils/MemoryCache.kt:20 | every entry is evicted, so every lookup afterwards finds nothing |
| MemoryCaching.PutKeepsExisting | app/src/main/java/com/jasmeet/customimageloader/utils/MemoryCache.kt:17-19 | putting under a present key changes no value |
| MemoryCaching.PutThenGet | app/src/main/java/com/jasmeet/customimageloader/utils/MemoryCache.kt:17-19 | a fresh value that fits the capacity on its own is found right after the put |
| MemoryCaching.CacheSizeKb | app/src/main/java/com/jasmeet/customimageloader/utils/MemoryCache.kt:7-8 | capacity (maxMemory / 1024) / 8 in KB, integer division |
| MemoryCaching.BitmapSizeKb | app/src/main/java/com/jasmeet/customimageloader/utils/MemoryCache.kt:11-13 | byteCount / 1024 rounded down, so bitmaps under 1 KB weigh 0 |
| MemoryCaching.NewAppMemoryCache | app/src/main/java/com/jasmeet/customimageloader/utils/MemoryCache.kt:6-14 | initialisation fails exactly when the capacity CacheSizeKb is not positive, as LruCache throws; otherwise an empty cache of that capacity whose entries weigh BitmapSizeKb |
| MemoryCaching.NoHeapLimitFails | app/src/main/java/com/jasmeet/customimageloader/utils/MemoryCache.kt:7-10 | a heap bound of Long.MAX_VALUE wraps to -1 KB, giving capacity 0, so the cache cannot be built |
| HexFilenames.Hex | app/src/main/java/com/jasmeet/customimageloader/utils/DiskCache.kt:21 | two lowercase hex digits per byte |
| HexFilenames.HexRoundTrip | app/src/main/java/com/jasmeet/customimageloader/utils/DiskCache.kt:18-22 | the hex rendering reads back to the digest |
| HexFilenames.HexInjective | app/src/main/java/com/jasmeet/customimageloader/utils/DiskCache.kt:18-22 | two digests share a rendering exactly when they are equal |
| Platform.AfterWrite | app/src/main/java/com/jasmeet/customimageloader/utils/DiskCache.kt:33-42 | a completed write replaces the one file, a failed open changes nothing, a partial write leaves what was written; no other file changes |
| AppDiskCaching.UrlToFilename | app/src/main/java/com/jasmeet/customimageloader/utils/DiskCache.kt:18-22 | 32 lowercase hex characters, no extension |
| AppDiskCaching.SameFileIffSameDigest | app/src/main/java/com/jasmeet/customimageloader/utils/DiskCache.kt:18-22 | two urls share a file exactly when their MD5 digests agree |
| AppDiskCaching.Lookup | app/src/main/java/com/jasmeet/customimageloader/utils/DiskCache.kt:24-27 | the decode of the file when it exists (possibly null), else null |
| AppDiskCaching.DiskCache.constructor | app/src/main/java/com/jasmeet/customimageloader/utils/DiskCache.kt:14-16 | the directory with whatever it holds |
| AppDiskCaching.DiskCache.Get | app/src/main/java/com/jasmeet/customimageloader/utils/DiskCache.kt:24-31 | null when the read throws, else Lookup |
| AppDiskCaching.DiskCache.Put | app/src/main/java/com/jasmeet/customimageloader/utils/DiskCache.kt:33-42 | writes the PNG encoding to the url's file per the write outcome; nothing else changes |
| AppDiskCaching.DiskCache.Clear | app/src/main/java/com/jasmeet/customimageloader/utils/DiskCache.kt:44-46 | every file is deleted, so every get afterwards is null |
| AppDiskCaching.PutThenGet | app/src/main/java/com/jasmeet/customimageloader/utils/DiskCache.kt:24-42 | after a completed put, get gives the decode of the PNG encoding; other digests, and every url after a failed open, read as before |
| LibDiskCaching.UrlToFilename | imageloader/src/main/java/com/jasmeet/imageloader/utils/DiskCache.kt:19-23 | 32 lowercase hex characters followed by the extension |
| LibDiskCaching.SameFileIff | imageloader/src/main/java/com/jasmeet/imageloader/utils/DiskCache.kt:19-23 | two (url, extension) pairs share a file exactly when digests and extensions agree |
| LibDiskCaching.ExtensionOf | imageloader/src/main/java/com/jasmeet/imageloader/utils/DiskCache.kt:77-80 | GIF and WEBP map to the probed animated extensions |
| LibDiskCaching.ProbeAnimated | imageloader/src/main/java/com/jasmeet/imageloader/utils/DiskCache.kt:29-51 | an animated answer needs the file, a sniffed format and a constructed decoder, and carries the file bytes verbatim with the detected format |
| LibDiskCaching.ProbeStatic | imageloader/src/main/java/com/jasmeet/imageloader/utils/DiskCache.kt:54-59 | a still answer needs the ".png" file |
| LibDiskCaching.Lookup | imageloader/src/main/java/com/jasmeet/imageloader/utils/DiskCache.kt:25-65 | the ".gif" probe wins, then ".webp", and a still image only when both fail |
| LibDiskCaching.DiskCache.constructor | imageloader/src/main/java/com/jasmeet/imageloader/utils/DiskCache.kt:14-17 | the directory with whatever it holds |
| LibDiskCaching.DiskCache.Get | imageloader/src/main/java/com/jasmeet/imageloader/utils/DiskCache.kt:25-65 | the loop over the animated extensions with early return, then ".png"; null when a read throws; equals Lookup |
| LibDiskCaching.DiskCache.Put | imageloader/src/main/java/com/jasmeet/imageloader/utils/DiskCache.kt:67-88 | still images as PNG to ".png", animations verbatim to their format's extension, per the write outcome; nothing else changes |
| LibDiskCaching.DiskCache.Clear | imageloader/src/main/java/com/jasmeet/imageloader/utils/DiskCache.kt:90-92 | every file is deleted, so every get afterwards is null |
| LibDiskCaching.StoredName | imageloader/src/main/java/com/jasmeet/imageloader/utils/DiskCache.kt:69-81 | the file put writes: ".png" for a still image, the format's extension for an animation |
| LibDiskCaching.StoredBytes | imageloader/src/main/java/com/jasmeet/imageloader/utils/DiskCache.kt:69-83 | PNG bytes for a still image, the original bytes for an animation |
| LibDiskCaching.ProbeUnaffected | imageloader/src/main/java/com/jasmeet/imageloader/utils/DiskCache.kt:67-88 | writing one extension leaves the probes of the others unchanged |
| LibDiskCaching.AnimatedRoundTrip | imageloader/src/main/java/com/jasmeet/imageloader/utils/DiskCache.kt:25-88 | after a completed animated put whose bytes sniff as its format and whose decoder constructs, get returns those bytes with the decoder metadata, unless a ".gif" probe answers first |
| LibDiskCaching.StaleGifShadows | imageloader/src/main/java/com/jasmeet/imageloader/utils/DiskCache.kt:28-84 | a stale ".gif" that probes successfully shadows any later ".webp" or ".png" put for the url |
| LibDiskCaching.StaticRoundTrip | imageloader/src/main/java/com/jasmeet/imageloader/utils/DiskCache.kt:54-75 | with no animated answer, a completed still put reads back as the decode of its PNG encoding |
| Prefetching.Job.Launch | app/src/main/java/com/jasmeet/customimageloader/utils/ImageLoader.kt:43-45 | a launched job loads its url with transformation None and is not cancelled |
| Prefetching.Job.Cancel | app/src/main/java/com/jasmeet/customimageloader/utils/ImageLoader.kt:50 | the job is cancelled |
| Prefetching.AfterPrefetch | app/src/main/java/com/jasmeet/customimageloader/utils/ImageLoader.kt:40-46 | registers the job only when the url is not a key; other urls unchanged |
| Prefetching.AfterCancel | app/src/main/java/com/jasmeet/customimageloader/utils/ImageLoader.kt:48-51 | removes exactly that url's entry |
| Prefetching.PrefetchSingleFlight | app/src/main/java/com/jasmeet/customimageloader/utils/ImageLoader.kt:40-46 | a repeat prefetch changes nothing: one job per url until cancelled |
| Prefetching.CancelThenPrefetch | app/src/main/java/com/jasmeet/customimageloader/utils/ImageLoader.kt:40-51 | after a cancel the next prefetch registers its own job |
| Prefetching.CancelLeavesOthers | imageloader/src/main/java/com/jasmeet/imageloader/utils/ImageLoader.kt:49-52 | cancelling one url leaves every other registration as it was |
| AppImageLoading.ImageLoader.constructor | app/src/main/java/com/jasmeet/customimageloader/utils/ImageLoader.kt:9-12 | no prefetch jobs; the given caches |
| AppImageLoading.ImageLoader.Load | app/src/main/java/com/jasmeet/customimageloader/utils/ImageLoader.kt:14-38 | memory hit returned untouched disk; else disk hit under the cache key copied to memory; else the download transformed (never null, and IsTransformed of the downloaded bitmap: the same bitmap for None or a falling-back blur, otherwise a fresh one with the size, config and drawing of its transform) and stored in memory and on disk under the cache key; all misses give null and change nothing; an answer that fits the memory cache is there afterwards |
| AppImageLoading.ImageLoader.Prefetch | app/src/main/java/com/jasmeet/customimageloader/utils/ImageLoader.kt:40-46 | a fresh job for None only when the url has none; otherwise nothing changes |
| AppImageLoading.ImageLoader.CancelPrefetch | app/src/main/java/com/jasmeet/customimageloader/utils/ImageLoader.kt:48-51 | the url's job is cancelled and its entry removed; nothing else changes |
| LibImageLoading.ImageLoader.constructor | imageloader/src/main/java/com/jasmeet/imageloader/utils/ImageLoader.kt:9-12 | no prefetch jobs; the given caches and transform |
| LibImageLoading.ImageLoader.Load | imageloader/src/main/java/com/jasmeet/imageloader/utils/ImageLoader.kt:14-39 | memory hit returned untouched disk; else a disk hit under the raw url is transformed into memory and the disk is not written; else the transformed download goes to memory and the original to disk under the url; all misses give null; an answer that fits the memory cache is there afterwards |
| LibImageLoading.ImageLoader.Prefetch | imageloader/src/main/java/com/jasmeet/imageloader/utils/ImageLoader.kt:41-47 | a fresh job for None only when the url has none; otherwise nothing changes |
| LibImageLoading.ImageLoader.CancelPrefetch | imageloader/src/main/java/com/jasmeet/imageloader/utils/ImageLoader.kt:49-53 | the url's job is cancelled and its entry removed; nothing else changes |

## Left out

- Pixels: bitmaps carry size, config, mutability, the recycled flag and the list of canvas operations drawn on them, not pixel values; float parameters are exact reals.
- ImageTransforming.ApplyBlur: whether the RenderScript pipeline completes is a parameter. The model does not say which inputs make it throw (for example a clamped radius of 0, which `ScriptIntrinsicBlur.setRadius` rejects).
- Frame timing: `currentTime`, the Movie's `setTime`/`draw`, and the pixel content of decoded frames are not modelled; DecodeFrame models the returned duration and the state it changes.
- The Compose UI, `ImageState`, the animation driver and the library's view helpers are outside the core.
- Concurrency: coroutines, dispatchers and `Dispatchers.IO` switches are left out; each operation is modelled as one atomic step and `scope.launch` as creating a job object.
- Network I/O: `URL.openConnection` and the stream read become the `fetched` parameter.
- MD5, UTF-8, `BitmapFactory.decodeByteArray` and PNG compression are uninterpreted functions of `Platform.Codecs`; the model proves what follows from them being functions (for instance, that file names depend only on the digest).
- The library's `GifDecoder` is used for the GIF branch of the app factory as well; the app module's own GIF decoder is not part of this model.
- The library module's unseen siblings become parameters of its loader and disk cache: the transform function (assumed to return a value), the decoder that validates cached animations (`openDecoder`), and the entry size of its memory cache.
- LibDiskCaching.ProbeAnimated, LibDiskCaching.Lookup and LibDiskCaching.DiskCache.Get: the library's own `AnimatedImageDecoderFactory.detectFormat` (imageloader/src/main/java/com/jasmeet/imageloader/utils/DiskCache.kt:7 and :32) is not part of this model and is not a parameter; the app module's `DecoderFactory.DetectFormat` stands in for it. `ProbeAnimated`'s format clause, the requires of `AnimatedRoundTrip` and `StaleGifShadows` hold for that sniffer, and would not hold if the library's sniffer accepted or classified bytes differently.
- AppImageLoading.ImageLoader.Load: the download is given as an optional bitmap, because the app loader assigns the downloader's image-data result to a bitmap variable. The model takes the bitmap case only.
- The transformation's `hashCode()` is a parameter of both loaders, since data-class hash codes of reals are platform-defined.
- MemoryCaching.MemoryCache: `LruCache`'s hit/miss counters, `create` and `entryRemoved` hooks are not modelled; only the ordering, the size accounting and eviction are.
- AppDiskCaching.DiskCache.Clear and LibDiskCaching.DiskCache.Clear: a file whose delete fails is not modelled; clear empties the directory.
- AppDiskCaching.DiskCache.Get and LibDiskCaching.DiskCache.Get: every read exception collapses into the one `readFails` flag.
- WebPDecoding.WebPDecoder.constructor: uses the corrected chunk walk of the Findings below, not the one as written. The two differ not only where the walk as written never ends but on every buffer whose walk meets a negative chunk size: there the model reports the default of 20 frames, while the walk as written may end with its own count (WebPChunks.NegativeSizeDisagrees: one frame). Where the walk meets no negative size they agree (WebPChunks.CheckedWalkAgrees). The buffer length is required to fit an `Int`, as a Kotlin `ByteArray` always does.
- DecoderFactory.CreateDecoder and WebPDecoding.NewWebPDecoder: require the buffer length to fit an `Int`, for the same reason.
- WebPChunks.ParseWebPFrameCount and WebPChunks.ParseWebPDuration: the loops as written take a ghost fuel with which their walk ends; the inputs on which they never end are exhibited separately.

## Findings

| source | as written | input that shows it | evidently intended | confidence | as-written member | corrected member |
|---|---|---|---|---|---|---|
| app/src/main/java/com/jasmeet/customimageloader/decoder/WebPDecoder.kt:137-158 | the chunk walk steps by `8 + size + size % 2` with a signed size, so a size of -8 or -7 leaves the offset where it is and the loop never ends | 21 or more bytes with bytes 16..19 = F8 FF FF FF (size -8 for the chunk at offset 12) | a negative size is a malformed chunk: the walk stops and the frame count is null, as on the caught exception | not executed | WebPChunks.MinusEightDiverges | WebPChunks.ParseWebPFrameCountChecked |
| app/src/main/java/com/jasmeet/customimageloader/decoder/WebPDecoder.kt:104-132 | the duration walk takes the same step, so the same size stalls it before any `ANIM` is found | the buffer above with a tag at offset 12 that is neither `ANIM` nor `ANMF` | the walk stops on a negative size and the duration is null | not executed | WebPChunks.MinusEightStallsDurationWalk | WebPChunks.ParseWebPDurationChecked |
