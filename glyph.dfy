/** A glyph of a font: its unshrunken bitmap, its hot point, and the shrunken
    image built from them on demand and kept until it is cleared. */
module Glyph {
  import opened ShrinkGeometry
  import opened AlphaSynthesis

  datatype Option<T> = None | Some(value: T)

  /** An unshrunken glyph bitmap: `w` by `h` pixels stored as rows of
      `bytesWide` bytes of packed bits. `bits` is None once the buffer has
      been released (or if there never was one). */
  datatype Bitmap = Bitmap(w: nat, h: nat, bytesWide: nat, bits: Option<seq<bv8>>)

  /** What the painting and resampling library is asked to do: paint the
      bitmap black on a white canvas of `canvasWidth` by `canvasHeight`
      pixels with its top-left corner at `(offsetCol, offsetRow)`, smoothly
      scale the canvas to `targetWidth` by `targetHeight` pixels and convert
      the result to 32 bits per pixel. */
  datatype RasterRequest = RasterRequest(
    bitmap: Bitmap,
    canvasWidth: nat, canvasHeight: nat,
    offsetCol: nat, offsetRow: nat,
    targetWidth: nat, targetHeight: nat)

  /** The painting and resampling library, seen from here: for a request,
      the 32-bit pixel at (row, column) of the scaled image. */
  type Rasterizer = RasterRequest -> (int, int) -> Pixel

  /** The raster request for a layout whose sizes and paddings are not
      negative, as every layout ComputeLayout returns is: the bitmap lies
      inside the canvas at the leading borders, the canvas reaches exactly
      the trailing borders past the bitmap, and the target is the
      layout's. */
  function Request(b: Bitmap, g: Layout): (req: RasterRequest)
    requires g.cols.target >= 0 && g.rows.target >= 0
    requires g.cols.pre >= 0 && g.cols.post >= 0 && g.rows.pre >= 0 && g.rows.post >= 0
    ensures req.bitmap == b
    ensures req.offsetCol + b.w <= req.canvasWidth && req.offsetRow + b.h <= req.canvasHeight
    ensures req.canvasWidth - req.offsetCol - b.w == g.cols.post
    ensures req.canvasHeight - req.offsetRow - b.h == g.rows.post
    ensures req.targetWidth == g.cols.target && req.targetHeight == g.rows.target
  {
    RasterRequest(b, g.cols.Canvas(b.w), g.rows.Canvas(b.h), g.cols.pre, g.rows.pre,
      g.cols.target, g.rows.target)
  }

  /** The canvas handed to the library holds the whole bitmap at its
      offset, and the scaled image is at least one pixel each way. */
  lemma RequestFitsCanvas(b: Bitmap, x: int, y: int, shrinkFactor: real)
    requires shrinkFactor > 0.0
    ensures var req := Request(b, ComputeLayout(shrinkFactor, b.w, b.h, x, y));
      req.offsetCol + b.w <= req.canvasWidth && req.offsetRow + b.h <= req.canvasHeight &&
      req.targetWidth >= 1 && req.targetHeight >= 1
  {
  }

  /** The scaled 32-bit image the library returns for a request: target
      sized, pixel (r, c) being the library's pixel at (r, c). */
  function ScaledImage(req: RasterRequest, rasterize: Rasterizer): (img: Image)
    ensures |img| == req.targetHeight
    ensures forall r :: 0 <= r < |img| ==> |img[r]| == req.targetWidth
    ensures forall r, c :: 0 <= r < |img| && 0 <= c < |img[r]| ==> img[r][c] == rasterize(req)(r, c)
  {
    seq(req.targetHeight, r requires 0 <= r < req.targetHeight =>
      seq(req.targetWidth, c requires 0 <= c < req.targetWidth => rasterize(req)(r, c)))
  }

  /** The shrunken character for a given layout: the library's scaled
      image, target-sized, with its alpha channel synthesized pixel by
      pixel. */
  function RenderLayout(b: Bitmap, g: Layout, rasterize: Rasterizer): (img: Image)
    requires g.cols.target >= 0 && g.rows.target >= 0
    requires g.cols.pre >= 0 && g.cols.post >= 0 && g.rows.pre >= 0 && g.rows.post >= 0
    ensures |img| == g.rows.target
    ensures forall r :: 0 <= r < |img| ==> |img[r]| == g.cols.target
    ensures forall r, c :: 0 <= r < |img| && 0 <= c < |img[r]| ==>
      img[r][c] == SynthesizedPixel(rasterize(Request(b, g))(r, c))
  {
    SynthesizedImage(ScaledImage(Request(b, g), rasterize))
  }

  /** The shrunken character of a glyph: the scaled image with its alpha
      channel synthesized. It is target-sized, every pixel in it is either
      fully transparent or fully opaque, and running the alpha pass on it
      again would change nothing. */
  function Render(b: Bitmap, x: int, y: int, shrinkFactor: real, rasterize: Rasterizer): (img: Image)
    requires shrinkFactor > 0.0
    ensures var g := ComputeLayout(shrinkFactor, b.w, b.h, x, y);
      |img| == g.rows.target && forall r :: 0 <= r < |img| ==> |img[r]| == g.cols.target
    ensures forall r, c :: 0 <= r < |img| && 0 <= c < |img[r]| ==>
      Alpha(img[r][c]) == 0 || Alpha(img[r][c]) == 0xFF
    ensures SynthesizedImage(img) == img
  {
    var g := ComputeLayout(shrinkFactor, b.w, b.h, x, y);
    SynthesizedImageIdempotent(ScaledImage(Request(b, g), rasterize));
    RenderLayout(b, g, rasterize)
  }

  /** Has the library paint and scale a request into a fresh 32-bit buffer,
      synthesizes the alpha channel in that buffer and returns its
      contents. */
  method PaintAndSynthesize(req: RasterRequest, rasterize: Rasterizer) returns (image: Image)
    ensures image == SynthesizedImage(ScaledImage(req, rasterize))
  {
    var scaled := rasterize(req);
    var im32 := new Pixel[req.targetHeight, req.targetWidth]((r, c) => scaled(r, c));
    ghost var initial := Pixels(im32);
    ghost var expected := ScaledImage(req, rasterize);
    forall r | 0 <= r < req.targetHeight
      ensures initial[r] == expected[r]
    {
    }
    ghost var visits := SynthesizeAlpha(im32);
    image := Pixels(im32);
  }

  /** Builds the shrunken character of a bitmap with hot point `(x, y)` at
      display shrink factor `shrinkFactor`, with its hot point in the
      shrunken image. */
  method BuildShrunkCharacter(b: Bitmap, x: int, y: int, shrinkFactor: real, rasterize: Rasterizer)
    returns (image: Image, g: Layout)
    requires shrinkFactor > 0.0
    ensures g == ComputeLayout(shrinkFactor, b.w, b.h, x, y)
    ensures image == RenderLayout(b, g, rasterize)
  {
    g := ComputeLayout(shrinkFactor, b.w, b.h, x, y);
    image := PaintAndSynthesize(Request(b, g), rasterize);
  }

  /** A cache entry for the bitmap `b` with hot point `(x, y)` is the
      character rendered with the layout of its shrink factor, and
      `(x2, y2)` is the shrunken hot point of that layout. */
  ghost predicate CacheConsistent(b: Bitmap, x: int, y: int, x2: int, y2: int, entry: Option<Image>,
                                  shrinkFactor: real, rasterize: Rasterizer, g: Layout)
  {
    entry.Some? ==>
      shrinkFactor > 0.0 &&
      g == ComputeLayout(shrinkFactor, b.w, b.h, x, y) &&
      entry.value == RenderLayout(b, g, rasterize) &&
      x2 == g.cols.hot && y2 == g.rows.hot
  }

  class Glyph {
    var bitmap: Bitmap
    /** The hot point, in unshrunken pixels from the top-left corner. */
    const x: int
    const y: int
    /** The hot point in the shrunken image, as of the last shrink. */
    var x2: int
    var y2: int
    /** The cached shrunken character, if any. */
    var smallChar: Option<Image>

    /** How many times the shrunken character has been built. */
    ghost var renders: nat
    /** The shrink factor and library the cached character was built with. */
    ghost var cachedFactor: real
    ghost var cachedRasterizer: Rasterizer
    ghost var cachedLayout: Layout

    /** A cached character is the one its shrink factor, layout and
        library give for this bitmap and hot point, and `x2`, `y2` are its
        hot point. */
    ghost predicate Valid()
      reads this
    {
      CacheConsistent(bitmap, x, y, x2, y2, smallChar, cachedFactor, cachedRasterizer, cachedLayout)
    }

    constructor (bitmap: Bitmap, x: int, y: int)
      ensures Valid()
      ensures this.bitmap == bitmap && this.x == x && this.y == y
      ensures x2 == 0 && y2 == 0
      ensures smallChar == None && renders == 0
    {
      this.bitmap := bitmap;
      this.x, this.y := x, y;
      x2, y2 := 0, 0;
      smallChar := None;
      renders := 0;
      cachedFactor := 1.0;
      cachedRasterizer := req => (r, c) => 0;
      cachedLayout := Layout(AxisLayout(0, 0, 0, 0), AxisLayout(0, 0, 0, 0));
    }

    /** The shrunken character at display shrink factor `shrinkFactor`.
        When the cache is empty it is built (and `x2`, `y2` set) and kept;
        otherwise the cached one is returned and nothing is rebuilt. */
    method ShrunkCharacter(shrinkFactor: real, rasterize: Rasterizer) returns (image: Image)
      requires Valid() && shrinkFactor > 0.0
      modifies this
      ensures Valid()
      ensures bitmap == old(bitmap)
      ensures smallChar == Some(image)
      ensures old(smallChar).Some? ==>
        image == old(smallChar.value) && renders == old(renders) &&
        x2 == old(x2) && y2 == old(y2) &&
        cachedFactor == old(cachedFactor) && cachedRasterizer == old(cachedRasterizer) &&
        cachedLayout == old(cachedLayout)
      ensures old(smallChar).None? ==>
        image == Render(bitmap, x, y, shrinkFactor, rasterize) && renders == old(renders) + 1 &&
        x2 == ScaledHotPoint(x, EffectiveScale(shrinkFactor)) &&
        y2 == ScaledHotPoint(y, EffectiveScale(shrinkFactor))
    {
      if smallChar.None? {
        Fill(shrinkFactor, rasterize);
        assert smallChar.value == Render(bitmap, x, y, shrinkFactor, rasterize);
      }
      image := smallChar.value;
    }

    /** The building half of ShrunkCharacter: fills the empty cache. */
    method Fill(shrinkFactor: real, rasterize: Rasterizer)
      requires smallChar.None? && shrinkFactor > 0.0
      modifies this
      ensures Valid()
      ensures bitmap == old(bitmap)
      ensures cachedLayout == ComputeLayout(shrinkFactor, bitmap.w, bitmap.h, x, y)
      ensures smallChar == Some(RenderLayout(bitmap, cachedLayout, rasterize))
      ensures renders == old(renders) + 1
    {
      var image, g := BuildShrunkCharacter(bitmap, x, y, shrinkFactor, rasterize);
      assert CacheConsistent(bitmap, x, y, g.cols.hot, g.rows.hot, Some(image), shrinkFactor, rasterize, g);
      x2, y2 := g.cols.hot, g.rows.hot;
      smallChar := Some(image);
      renders := renders + 1;
      cachedFactor, cachedRasterizer, cachedLayout := shrinkFactor, rasterize, g;
    }

    /** Drops the cached shrunken character, if there is one. */
    method ClearShrunkCharacter()
      modifies this`smallChar
      ensures smallChar == None
      ensures Valid()
    {
      if smallChar.Some? {
        smallChar := None;
      }
    }

    /** Tearing the glyph down: the bitmap buffer is released if it is
        still held, and the cached character is dropped. */
    method Destroy()
      modifies this`bitmap, this`smallChar
      ensures bitmap == old(bitmap).(bits := None)
      ensures smallChar == None
      ensures Valid()
    {
      if bitmap.bits.Some? {
        bitmap := bitmap.(bits := None);
      }
      ClearShrunkCharacter();
    }
  }
}
