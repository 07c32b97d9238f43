/** The platform's bitmap, reduced to what the loader's logic observes: its size,
    pixel configuration, mutability, recycled flag and the drawing done on it.
    Pixels themselves are not modelled: a bitmap's `content` is the list of canvas
    operations applied to it since it was created or last erased. */
module Graphics {
  import opened Common

  /** `Bitmap.Config`. The hardware configuration is not modelled. */
  datatype Config = ALPHA_8 | RGB_565 | ARGB_4444 | ARGB_8888 | RGBA_F16 | RGBA_1010102

  function BytesPerPixel(c: Config): nat
  {
    match c
    case ALPHA_8 => 1
    case RGB_565 => 2
    case ARGB_4444 => 2
    case ARGB_8888 => 4
    case RGBA_F16 => 8
    case RGBA_1010102 => 4
  }

  /** An integer rectangle `Rect(left, top, right, bottom)`. */
  datatype Rect = Rect(left: int, top: int, right: int, bottom: int)

  /** A canvas operation. Float geometry is kept as exact `real`s. */
  datatype DrawOp =
    | FillRoundRect(rect: Rect, radius: real)
    | FillCircle(cx: real, cy: real, radius: real)
    | DrawBitmapSrcIn(src: Bitmap, srcRect: Rect, dstRect: Rect)
    | StrokeCircle(cx: real, cy: real, radius: real, strokeWidth: real, color: int)
    | BlurredCopy(src: Bitmap, radius: real)

  class Bitmap {
    const width: int
    const height: int
    const config: Option<Config>
    const isMutable: bool
    /** `getByteCount()`: bytes of pixel storage. */
    const byteCount: nat
    var isRecycled: bool
    var content: seq<DrawOp>

    /** `Bitmap.createBitmap(width, height, config)`: a blank, mutable bitmap. */
    constructor Create(width: int, height: int, config: Config)
      requires width > 0 && height > 0
      ensures this.width == width && this.height == height && this.config == Some(config)
      ensures isMutable && !isRecycled && content == []
      ensures byteCount == width * height * BytesPerPixel(config)
    {
      this.width := width;
      this.height := height;
      this.config := Some(config);
      this.isMutable := true;
      this.byteCount := width * height * BytesPerPixel(config);
      this.isRecycled := false;
      this.content := [];
    }

    /** A bitmap handed over by platform code (a decoder, a resource). */
    constructor FromPlatform(width: int, height: int, config: Option<Config>, isMutable: bool, byteCount: nat)
      requires width > 0 && height > 0
      ensures this.width == width && this.height == height && this.config == config
      ensures this.isMutable == isMutable && this.byteCount == byteCount
      ensures !isRecycled && content == []
    {
      this.width := width;
      this.height := height;
      this.config := config;
      this.isMutable := isMutable;
      this.byteCount := byteCount;
      this.isRecycled := false;
      this.content := [];
    }

    /** `recycle()`: frees the pixels; the bitmap may no longer be drawn. */
    method Recycle()
      modifies this
      ensures isRecycled && content == old(content)
    {
      isRecycled := true;
    }

    /** `eraseColor(0)`: clears every pixel to transparent. */
    method EraseColor()
      requires isMutable && !isRecycled
      modifies this
      ensures content == [] && isRecycled == old(isRecycled)
    {
      content := [];
    }
  }
}
