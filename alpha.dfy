/** Synthesis of the alpha channel of a shrunken glyph image: a pixel whose
    colour is pure white becomes fully transparent, every other pixel fully
    opaque, and the colour bits are kept. The pass rewrites a buffer of
    32-bit ARGB words in place, row by row. */
module AlphaSynthesis {

  /** A 32-bit ARGB word: alpha in the top byte, then red, green and blue. */
  type Pixel = bv32

  /** An image as its rows of pixels, top row first. */
  type Image = seq<seq<Pixel>>

  const RgbMask: Pixel := 0x00FF_FFFF
  const AlphaMask: Pixel := 0xFF00_0000

  /** The colour bits of a pixel. */
  function Rgb(p: Pixel): Pixel {
    p & RgbMask
  }

  /** The alpha byte of a pixel. */
  function Alpha(p: Pixel): Pixel {
    p >> 24
  }

  /** A pixel is determined by its colour bits and its alpha byte. */
  lemma ChannelsDetermine(p: Pixel, q: Pixel)
    requires Rgb(p) == Rgb(q) && Alpha(p) == Alpha(q)
    ensures p == q
  {
  }

  /** One step of the pass: pure white gets alpha 0, anything else alpha
      0xFF; the colour bits never change. */
  function SynthesizedPixel(p: Pixel): (q: Pixel)
    ensures Rgb(q) == Rgb(p)
    ensures Alpha(q) == if Rgb(p) == RgbMask then 0 else 0xFF
  {
    if p & RgbMask == RgbMask then p & RgbMask else p | AlphaMask
  }

  lemma PixelStep(p: Pixel)
    ensures p & RgbMask == RgbMask ==> SynthesizedPixel(p) == p & RgbMask
    ensures p & RgbMask != RgbMask ==> SynthesizedPixel(p) == p | AlphaMask
  {
  }

  /** The pass applied to every pixel of an image. */
  function SynthesizedImage(img: Image): (out: Image)
    ensures |out| == |img|
    ensures forall r :: 0 <= r < |img| ==> |out[r]| == |img[r]|
    ensures forall r, c :: 0 <= r < |img| && 0 <= c < |img[r]| ==>
      out[r][c] == SynthesizedPixel(img[r][c])
  {
    seq(|img|, r requires 0 <= r < |img| =>
      seq(|img[r]|, c requires 0 <= c < |img[r]| => SynthesizedPixel(img[r][c])))
  }

  /** In the output of the pass, the transparent pixels are exactly those
      that were pure white, and all others are fully opaque. */
  lemma TransparentIffWhite(img: Image, r: nat, c: nat)
    requires r < |img| && c < |img[r]|
    ensures var out := SynthesizedImage(img);
      r < |out| && c < |out[r]| &&
      (Alpha(out[r][c]) == 0 <==> Rgb(img[r][c]) == RgbMask) &&
      (Alpha(out[r][c]) != 0 ==> Alpha(out[r][c]) == 0xFF) &&
      Rgb(out[r][c]) == Rgb(img[r][c])
  {
  }

  /** Running the pass a second time changes nothing. */
  lemma {:induction false} SynthesizedImageIdempotent(img: Image)
    ensures SynthesizedImage(SynthesizedImage(img)) == SynthesizedImage(img)
  {
    var once := SynthesizedImage(img);
    var twice := SynthesizedImage(once);
    forall r | 0 <= r < |img|
      ensures twice[r] == once[r]
    {
      forall c | 0 <= c < |img[r]|
        ensures twice[r][c] == once[r][c]
      {
        var p := img[r][c];
        ChannelsDetermine(SynthesizedPixel(SynthesizedPixel(p)), SynthesizedPixel(p));
      }
    }
  }

  /** The image held by a buffer: `a[r, c]` is the pixel in row `r`,
      column `c`. */
  function Pixels(a: array2<Pixel>): (img: Image)
    reads a
    ensures |img| == a.Length0
    ensures forall r :: 0 <= r < a.Length0 ==> |img[r]| == a.Length1
    ensures forall r, c :: 0 <= r < a.Length0 && 0 <= c < a.Length1 ==> img[r][c] == a[r, c]
  {
    seq(a.Length0, r requires 0 <= r < a.Length0 reads a =>
      seq(a.Length1, c requires 0 <= c < a.Length1 reads a => a[r, c]))
  }

  /** The coordinates `(r, 0)`, ..., `(r, width - 1)` of one row, left to
      right. */
  function RowVisits(r: int, width: nat): (v: seq<(int, int)>)
    ensures |v| == width
  {
    if width == 0 then [] else RowVisits(r, width - 1) + [(r, width - 1)]
  }

  /** The coordinates of the first `height` rows in row-major order: the
      order in which the pass visits the buffer. */
  function RowMajor(height: nat, width: nat): seq<(int, int)> {
    if height == 0 then [] else RowMajor(height - 1, width) + RowVisits(height - 1, width)
  }

  /** How many times `p` occurs in `s`. */
  function Occurrences(s: seq<(int, int)>, p: (int, int)): nat {
    if s == [] then 0 else Occurrences(s[..|s| - 1], p) + (if s[|s| - 1] == p then 1 else 0)
  }

  lemma {:induction false} OccurrencesConcat(a: seq<(int, int)>, b: seq<(int, int)>, p: (int, int))
    ensures Occurrences(a + b, p) == Occurrences(a, p) + Occurrences(b, p)
  {
    if b != [] {
      assert (a + b)[..|a + b| - 1] == a + b[..|b| - 1];
      OccurrencesConcat(a, b[..|b| - 1], p);
    } else {
      assert a + b == a;
    }
  }

  /** One row lists each of its `width` pixels exactly once. */
  lemma {:induction false} RowVisitsOnce(r: int, width: nat, p: (int, int))
    ensures Occurrences(RowVisits(r, width), p) == if p.0 == r && 0 <= p.1 < width then 1 else 0
  {
    if width > 0 {
      RowVisitsOnce(r, width - 1, p);
      OccurrencesConcat(RowVisits(r, width - 1), [(r, width - 1)], p);
      assert Occurrences([(r, width - 1)], p) == if p == (r, width - 1) then 1 else 0 by {
        assert [(r, width - 1)][..0] == [];
      }
    }
  }

  /** Row-major order lists every pixel of a `height` by `width` image
      exactly once, and nothing else. */
  lemma {:induction false} RowMajorExactlyOnce(height: nat, width: nat, p: (int, int))
    ensures Occurrences(RowMajor(height, width), p) ==
      if 0 <= p.0 < height && 0 <= p.1 < width then 1 else 0
  {
    if height > 0 {
      RowVisitsOnce(height - 1, width, p);
      RowMajorExactlyOnce(height - 1, width, p);
      OccurrencesConcat(RowMajor(height - 1, width), RowVisits(height - 1, width), p);
    }
  }

  /** The alpha pass over a buffer of `im.Length0` rows of `im.Length1`
      words. It visits the pixels in row-major order, each exactly once (see
      RowMajorExactlyOnce), and leaves every pixel rewritten from its own old
      value alone. */
  method SynthesizeAlpha(im: array2<Pixel>) returns (ghost visits: seq<(int, int)>)
    modifies im
    ensures forall r, c :: 0 <= r < im.Length0 && 0 <= c < im.Length1 ==>
      im[r, c] == SynthesizedPixel(old(im[r, c]))
    ensures Pixels(im) == SynthesizedImage(old(Pixels(im)))
    ensures visits == RowMajor(im.Length0, im.Length1)
  {
    visits := [];
    var y := 0;
    while y < im.Length0
      invariant 0 <= y <= im.Length0
      invariant visits == RowMajor(y, im.Length1)
      invariant forall r, c :: 0 <= r < im.Length0 && 0 <= c < im.Length1 ==>
        im[r, c] == if r < y then SynthesizedPixel(old(im[r, c])) else old(im[r, c])
    {
      var x := 0;
      while x < im.Length1
        invariant 0 <= x <= im.Length1
        invariant visits == RowMajor(y, im.Length1) + RowVisits(y, x)
        invariant forall r, c :: 0 <= r < im.Length0 && 0 <= c < im.Length1 ==>
          im[r, c] == if r < y || (r == y && c < x) then SynthesizedPixel(old(im[r, c]))
            else old(im[r, c])
      {
        var p := im[y, x];
        assert p == old(im[y, x]);
        PixelStep(p);
        if p & RgbMask == RgbMask {
          im[y, x] := p & RgbMask;
        } else {
          im[y, x] := p | AlphaMask;
        }
        visits := visits + [(y, x)];
        x := x + 1;
      }
      y := y + 1;
    }
    ghost var before := old(Pixels(im));
    ghost var after := Pixels(im);
    ghost var expected := SynthesizedImage(before);
    forall r | 0 <= r < im.Length0
      ensures after[r] == expected[r]
    {
    }
  }
}
