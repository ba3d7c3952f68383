# Shrinking glyphs in kdvi, modelled in Dafny

kdvi draws each character of a DVI page from a glyph: an unshrunken
one-bit bitmap of the font character and a hot point (the reference point
that sits on the baseline). For the screen, each glyph is shrunk once by
the display shrink factor. The shrunken character is kept in the glyph
until the cache is cleared. This project models that code in `glyph.cpp`:

- `geometry.dfy`, module `ShrinkGeometry`. It covers the arithmetic that
  places the shrunken glyph:
  - the effective scale `sf = shrink_factor * 0.9`;
  - the hot point in the shrunken image;
  - the target size;
  - the four white borders. The leading border places the end of the hot
    point's pixel at the rounded scaled-up end of its target pixel. Where
    that border is clamped at zero, the end lands one unshrunken pixel
    late (`AnchorAlignment`, `ClampedAnchorAtTwo`).

  C's `(int)` casts truncate toward zero, and are modelled that way (`Trunc`,
  `RoundCast`). Hot points outside the bitmap, which fonts do have, are
  covered as well.
- `alpha.dfy`, module `AlphaSynthesis`. It covers the pass that turns the
  scaled 32-bit ARGB image into a mask, rewriting a two-dimensional buffer
  in place row by row:
  - pure white pixels become fully transparent;
  - all other pixels become fully opaque.
- `glyph.dfy`, module `Glyph`. It covers the glyph object:
  - the bitmap and hot point;
  - the shrunken hot point `x2`, `y2`;
  - the lazily filled cache slot for the shrunken character;
  - `shrunkCharacter`, `clearShrunkCharacter` and the destructor.

  The painting and resampling library (QBitmap, QPainter, `smoothScale`,
  `convertDepth`) is a function parameter, `Rasterizer`. It receives the
  canvas size, the offset of the bitmap in it and the target size, and
  yields the pixels of the scaled 32-bit image.

## Model

| member | source | states |
|---|---|---|
| ShrinkGeometry.Trunc | glyph.cpp:71-72 | the C `(int)` cast of a real: the integer part, toward zero, for both signs |
| ShrinkGeometry.RoundCast | glyph.cpp:75-76 | `(int)(v + 0.5)` is the nearest integer for `v >= -0.5`; below that it truncates `v + 0.5` toward zero (the ceiling of `v + 0.5`) |
| ShrinkGeometry.EffectiveScale | glyph.cpp:67 | the scale actually used is positive and smaller than the display shrink factor (what that does to the glyph is LoweredScaleEnlarges) |
| ShrinkGeometry.ScaledHotPoint | glyph.cpp:71-72 | the shrunken hot point is `Floor(c / sf)` for a hot point at or after the origin, and is never positive for one before it |
| ShrinkGeometry.HotPointSpan | glyph.cpp:71-72 | the hot point lies in the unshrunken span of its target pixel, `[c2 * sf, (c2 + 1) * sf)`; the span is mirrored for negative hot points |
| ShrinkGeometry.ShrunkExtent | glyph.cpp:75-76 | the target size is at least one pixel; for a hot point not past the far edge, the part after the hot point's pixel is the rounded quotient of the bitmap's extent beyond the hot point |
| ShrinkGeometry.ShrunkExtentPositive | glyph.cpp:75-76 | the two truncations never lose a whole pixel, so shrunken hot point plus rounded far part is never negative |
| ShrinkGeometry.PrePadding | glyph.cpp:80-82 | the leading border is never negative; when not clamped, the border plus the hot point plus one is the rounded end of the hot point's target pixel, scaled back up |
| ShrinkGeometry.PostPadding | glyph.cpp:83-85 | the trailing border is never negative, and extends the bitmap to at least the rounded scaled-up target size (exactly that size when not clamped) |
| ShrinkGeometry.AxisLayout.Canvas | glyph.cpp:99 | the canvas is the bitmap plus both borders: with non-negative borders it holds the bitmap after the leading border, and what is left after the bitmap is exactly the trailing border |
| ShrinkGeometry.Axis | glyph.cpp:71-92 | the layout of one axis: the shrunken hot point, a target of at least one pixel, non-negative borders, and a canvas that holds the bitmap |
| ShrinkGeometry.ComputeLayout | glyph.cpp:67-92 | both axes: hot points are the scaled hot points; targets are at least one pixel; all four borders are non-negative; the bitmap fits in the canvas at offset (pre_cols, pre_rows); a hot point inside the bitmap lands inside the target |
| ShrinkGeometry.AnchorAlignment | glyph.cpp:80-82 | after the leading border, the hot point's pixel ends at the rounded scaled-up end of its target pixel; the clamp shifts this by one pixel only for hot points at or after the origin, where the border stays below one shrunken pixel |
| ShrinkGeometry.LayoutAnchorAlignment | glyph.cpp:80-92 | in both axes of the layout, a leading border that is not clamped (always, for a hot point before the origin) plus the hot point plus one is the rounded scaled-up end of the hot point's target pixel, and for a hot point at or after the origin the border is below one shrunken pixel |
| ShrinkGeometry.ShrunkExtentAtLeastExtent | glyph.cpp:62-76 | at a scale of at most one, a hot point inside the bitmap gives a target at least one pixel longer than the bitmap |
| ShrinkGeometry.TargetExceedsBitmapUpToFactorOne | glyph.cpp:75-76 | with a display shrink factor of at most one and the hot point inside the bitmap, the target is at least one pixel wider and taller than the bitmap: the pixel of slack in the target size, at a scale that does not reduce |
| ShrinkGeometry.ShrunkExtentMonotone | glyph.cpp:71-76 | with the hot point inside the bitmap, a smaller scale never gives a smaller target size |
| ShrinkGeometry.LoweredScaleEnlarges | glyph.cpp:62-67 | lowering the scale to `shrink_factor * 0.9` never makes characters smaller than at the display shrink factor: with the hot point inside the bitmap, each target is at least the one the display shrink factor itself would give |
| ShrinkGeometry.ClampedAnchorAtTwo | glyph.cpp:87-89 | at shrink factor 2, the hot point 5 of an 8-pixel axis gets a leading border clamped from -1 to 0, so its pixel ends one unshrunken pixel past the rounded end of its target pixel |
| ShrinkGeometry.EightByEightAtTwo | glyph.cpp:67-92 | an 8 by 8 glyph with hot point (4, 4) at shrink factor 2 becomes 5 by 5 with hot point (2, 2) and one trailing white row and column |
| AlphaSynthesis.SynthesizedPixel | glyph.cpp:119-122 | the colour bits are kept; alpha becomes 0 exactly when the colour is pure white, and 0xFF otherwise |
| AlphaSynthesis.TransparentIffWhite | glyph.cpp:119-122 | in the output, a pixel is transparent if and only if its input colour was pure white, every other pixel is fully opaque, and colours are kept |
| AlphaSynthesis.SynthesizedImage | glyph.cpp:115-125 | the pass keeps the image's dimensions, and each output pixel depends only on the input pixel at the same place |
| AlphaSynthesis.SynthesizedImageIdempotent | glyph.cpp:119-122 | running the pass a second time changes nothing |
| AlphaSynthesis.RowMajorExactlyOnce | glyph.cpp:115-117 | the row-by-row order of the two loops lists every pixel of the image exactly once and nothing outside it |
| AlphaSynthesis.SynthesizeAlpha | glyph.cpp:115-125 | the in-place pass rewrites every word of the buffer from its own old value as above, its contents become the pass applied to the old contents, and it visits the pixels in row-major order |
| Glyph.Request | glyph.cpp:99-110 | the library gets the bitmap on a canvas that holds it at offset (pre_cols, pre_rows), followed by the trailing border of post_cols columns and post_rows rows, and is asked for the layout's target size |
| Glyph.RequestFitsCanvas | glyph.cpp:96-104 | the white canvas handed to the library holds the whole bitmap at offset (pre_cols, pre_rows), and the requested scaled image is at least one pixel each way |
| Glyph.ScaledImage | glyph.cpp:110-113 | the scaled 32-bit image has the requested target size, and each of its pixels is the one the library yields at that place |
| Glyph.RenderLayout | glyph.cpp:110-125 | the character for a given layout has the layout's target size, and each of its pixels is the library's pixel at that place after the alpha pass |
| Glyph.Render | glyph.cpp:94-125 | the shrunken character has the target size of the layout; every pixel is either fully transparent or fully opaque; the alpha pass leaves it unchanged |
| Glyph.PaintAndSynthesize | glyph.cpp:110-125 | the buffer filled by the library and rewritten in place by the alpha pass holds the pass applied to the library's scaled image |
| Glyph.BuildShrunkCharacter | glyph.cpp:67-127 | building a character uses the layout of the shrink factor and yields the character rendered with it |
| Glyph.Glyph.ShrunkCharacter | glyph.cpp:38-130 | with an empty cache, the character is built once (render count up by one), kept, and `x2`, `y2` set to the scaled hot point; with a full cache, the kept character is returned and nothing is rebuilt or changed; afterwards the cache is full and consistent |
| Glyph.Glyph.Fill | glyph.cpp:40-128 | filling the empty cache stores the character rendered with the layout of the shrink factor and counts one render |
| Glyph.Glyph.ClearShrunkCharacter | glyph.cpp:26-32 | only the cache slot changes, and it ends empty (so clearing twice is the same as clearing once) |
| Glyph.Glyph.Destroy | glyph.cpp:19-24 | the bitmap buffer is released (nothing else in the bitmap changes) and the cache ends empty |

## Left out

- The painting and resampling library is not modelled. This covers the
  QBitmap built from the packed bits, QPainter's fill and blit,
  `convertToImage().smoothScale` and `convertDepth`. It is a function
  parameter, `Rasterizer`. It receives everything the source hands the
  library: the bitmap including its row width in bytes (the QBitmap is
  `bytes_wide * 8` pixels wide), the canvas size, the offset and the
  target size. What it paints is not constrained.
- `convertFromImage` and `setOptimization` (glyph.cpp:126-127) are not
  modelled. The cached value is the contents of the 32-bit image itself.
  The pixmap that briefly holds the unscaled canvas (glyph.cpp:99) is not
  a separate state.
- The alpha loops are bounded by the 8-bit image's height and width, but
  write into the 32-bit copy. `convertDepth` keeps the size, so the model
  bounds the loops by the 32-bit buffer's own dimensions.
- `sf` and the `+ 0.5` roundings are computed in exact reals, not single-
  and double-precision floating point. The truncating casts themselves are
  modelled exactly for values in `int` range; an out-of-range cast, which
  C leaves undefined, is not modelled.
- `free` and `delete` (glyph.cpp:22, 29) become state changes: the
  bitmap's bits become `None` and the cache slot becomes `None`. The raw
  pointer heap is not modelled.
- The display shrink factor comes from headers that are not part of this
  model. It is an argument, required to be positive.
- glyph.h, which declares the fields and the constructor, is not part of
  this model. The constructor here starts with an empty cache and
  `x2 = y2 = 0`.
- `x2`, `y2` are what `shrunkCharacter` sets as a side effect. The model
  states them in terms of the shrink factor used to build the cached
  character.
- ShrinkGeometry.EffectiveScale: the contract states only that the scale
  is positive and below the display shrink factor. The factor 0.9 itself
  is in the body, which the other members use.
- ShrinkGeometry.AnchorAlignment: for hot points left of or above the
  bitmap, the rounding is C's `(int)(v + 0.5)`, which rounds negative
  values toward zero. The property is stated for that rounding, not for
  rounding to nearest.
