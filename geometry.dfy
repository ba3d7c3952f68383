/** Anchor-preserving shrink geometry of a glyph.

    Every quantity is computed once per axis: the column axis takes the hot
    point's `x` and the bitmap width, the row axis its `y` and the bitmap
    height. The scale is an exact positive real, and C++'s `(int)` cast is
    truncation toward zero, so hot points outside the bitmap (a negative `x`,
    a `y` below the last row) are covered as well. */
module ShrinkGeometry {

  /** C++'s `(int)` cast of a floating-point value: truncation toward zero. */
  function Trunc(r: real): (n: int)
    ensures 0.0 <= r ==> 0 <= n && n as real <= r < n as real + 1.0
    ensures r < 0.0 ==> n <= 0 && n as real - 1.0 < r <= n as real
  {
    if r >= 0.0 then r.Floor else -((-r).Floor)
  }

  /** The idiom `(int)(v + 0.5)`: rounds to nearest (halves upward) when
      `v + 0.5` is not negative, and truncates toward zero otherwise. */
  function RoundCast(v: real): (n: int)
    ensures -0.5 <= v ==> 0 <= n && n as real - 0.5 <= v < n as real + 0.5
    ensures v < -0.5 ==> n <= 0 && v + 0.5 <= n as real < v + 1.5
  {
    Trunc(v + 0.5)
  }

  /** The scale used when shrinking glyphs: a little less than the display
      shrink factor, so that glyphs come out slightly larger while their
      positions on the page stay where they were. */
  function EffectiveScale(shrinkFactor: real): (sf: real)
    requires shrinkFactor > 0.0
    ensures 0.0 < sf < shrinkFactor
  {
    shrinkFactor * 0.9
  }

  lemma MulLe(a: real, b: real, k: real)
    requires a <= b && k > 0.0
    ensures a * k <= b * k
  {
  }

  lemma MulAdd(a: real, b: real, k: real)
    ensures (a + b) * k == a * k + b * k
  {
  }

  lemma DivMul(a: real, sf: real)
    requires sf > 0.0
    ensures a / sf * sf == a
  {
  }

  /** Comparing with a quotient is comparing with a product. */
  lemma QuotientCompare(a: real, sf: real, m: real)
    requires sf > 0.0
    ensures a / sf * sf == a
    ensures a / sf < m <==> a < m * sf
    ensures m <= a / sf <==> m * sf <= a
    ensures m < a / sf <==> m * sf < a
    ensures a / sf <= m <==> a <= m * sf
  {
    var q := a / sf;
    assert q * sf == a;
    if q < m { assert q * sf < m * sf; }
    if a < m * sf { assert q * sf < m * sf; }
    if m < q { assert m * sf < q * sf; }
    if m * sf < a { assert m * sf < q * sf; }
  }

  /** Target coordinate of the hot-point coordinate `c`: the floor of
      `c / sf` for a hot point at or after the origin. */
  function ScaledHotPoint(c: int, sf: real): (c2: int)
    requires sf > 0.0
    ensures 0 <= c ==> 0 <= c2 && c2 == (c as real / sf).Floor
    ensures c < 0 ==> c2 <= 0
  {
    QuotientCompare(c as real, sf, 0.0);
    Trunc(c as real / sf)
  }

  /** The hot point lies in the span `[c2 * sf, (1 + c2) * sf)` of its
      target pixel (for a negative hot point, in `((c2 - 1) * sf, c2 * sf]`,
      as truncation rounds toward zero). */
  lemma HotPointSpan(c: int, sf: real)
    requires sf > 0.0
    ensures var c2 := ScaledHotPoint(c, sf);
      (0 <= c ==> c2 as real * sf <= c as real < (1.0 + c2 as real) * sf) &&
      (c < 0 ==> (c2 as real - 1.0) * sf < c as real <= c2 as real * sf)
  {
    var c2 := ScaledHotPoint(c, sf);
    QuotientCompare(c as real, sf, c2 as real);
    QuotientCompare(c as real, sf, 1.0 + c2 as real);
    QuotientCompare(c as real, sf, c2 as real - 1.0);
  }

  /** Number of shrunken pixels along an axis of `extent` unshrunken pixels
      whose hot point is at `c`: the shrunken hot point, the part beyond it
      rounded to nearest, and one pixel of slack. It is never below one, and
      when the hot point is not past the far edge the part beyond the hot
      point's own target pixel is the rounded quotient of the far part. */
  function ShrunkExtent(c: int, extent: nat, sf: real): (n: int)
    requires sf > 0.0
    ensures n >= 1
    ensures c <= extent ==>
      var beyond := n - 1 - ScaledHotPoint(c, sf);
      0 <= beyond && beyond as real - 0.5 <= (extent - c) as real / sf < beyond as real + 0.5
  {
    var far := (extent - c) as real / sf;
    QuotientCompare((extent - c) as real, sf, 0.0);
    ShrunkExtentPositive(c, extent, sf);
    ScaledHotPoint(c, sf) + RoundCast(far) + 1
  }

  /** The shrunken hot point and the rounded far part never sum below zero:
      their unrounded sum is `extent / sf`, and the two roundings together
      lose less than one pixel. */
  lemma ShrunkExtentPositive(c: int, extent: nat, sf: real)
    requires sf > 0.0
    ensures ScaledHotPoint(c, sf) + RoundCast((extent - c) as real / sf) >= 0
  {
    var c2 := ScaledHotPoint(c, sf);
    var far := (extent - c) as real / sf;
    var n := RoundCast(far);
    assert far * sf == (extent - c) as real by {
      DivMul((extent - c) as real, sf);
    }
    assert (0 <= c ==> c2 as real * sf <= c as real < (1.0 + c2 as real) * sf) &&
      (c < 0 ==> (c2 as real - 1.0) * sf < c as real <= c2 as real * sf) by {
      HotPointSpan(c, sf);
    }
    RoundingsKeepSumInt(c, extent, sf, c2, far, n);
  }

  /** ShrunkExtentPositive for given roundings `c2` of `c / sf` and `n` of
      `far`, stated as the contracts of ScaledHotPoint, HotPointSpan and
      RoundCast give them. */
  lemma RoundingsKeepSumInt(c: int, extent: nat, sf: real, c2: int, far: real, n: int)
    requires sf > 0.0
    requires far * sf == (extent - c) as real
    requires 0 <= c ==> 0 <= c2
    requires 0 <= c ==> c2 as real * sf <= c as real < (1.0 + c2 as real) * sf
    requires c < 0 ==> (c2 as real - 1.0) * sf < c as real <= c2 as real * sf
    requires -0.5 <= far ==> 0 <= n && n as real - 0.5 <= far < n as real + 0.5
    requires far < -0.5 ==> n <= 0 && far + 0.5 <= n as real < far + 1.5
    ensures c2 + n >= 0
  {
    RoundingsKeepSum(c as real, extent as real, sf, c2 as real, far, n as real);
  }

  /** The real-number core of ShrunkExtentPositive. */
  lemma RoundingsKeepSum(c: real, extent: real, sf: real, c2: real, far: real, n: real)
    requires sf > 0.0 && 0.0 <= extent
    requires far * sf == extent - c
    requires 0.0 <= c ==> 0.0 <= c2 && c < (1.0 + c2) * sf
    requires c < 0.0 ==> c <= c2 * sf
    requires n > far - 0.5
    requires -0.5 <= far ==> 0.0 <= n
    requires far < -0.5 ==> n >= far + 0.5
    ensures c2 + n > -1.0
  {
    if c < 0.0 || n < 0.0 {
      if 0.0 <= c {
        // n is negative, so far lies below -0.5 and n rounds it up by at
        // least a half.
        MulLe(far + 0.5, n, sf);
        MulAdd(far, 0.5, sf);
        MulAdd(1.0, c2, sf);
        assert n * sf >= far * sf + 0.5 * sf && c < sf + c2 * sf;
        SumAboveMinusScale(c2 * sf, n * sf, far * sf, sf, c, extent);
      } else {
        MulLe(far - 0.5, n, sf);
        MulAdd(far, -0.5, sf);
        assert n * sf >= far * sf - 0.5 * sf && c <= c2 * sf;
        SumAboveMinusScale(c2 * sf, n * sf, far * sf, sf, c, extent);
      }
      MulAdd(c2, n, sf);
      MulCancel(c2 + n, -1.0, sf);
    }
  }

  /** RoundingsKeepSum with the products `c2 * sf`, `n * sf` and
      `far * sf` as plain numbers `p`, `q` and `f`. */
  lemma SumAboveMinusScale(p: real, q: real, f: real, sf: real, c: real, extent: real)
    requires sf > 0.0 && 0.0 <= extent && f == extent - c
    requires 0.0 <= c ==> c < sf + p && q >= f + 0.5 * sf
    requires c < 0.0 ==> c <= p && q >= f - 0.5 * sf
    ensures p + q > -sf
  {
  }

  /** Dividing both sides of a strict inequality by a positive factor. */
  lemma MulCancel(a: real, b: real, k: real)
    requires k > 0.0 && a * k > b * k
    ensures a > b
  {
    if a <= b {
      MulLe(a, b, k);
    }
  }

  /** White rows (columns) to add before the bitmap, given where the hot
      point's target pixel ends when scaled back up (`(1.0 + c2) * sf`): the
      rounded end minus the end of the hot point's own pixel, clamped at
      zero. */
  function PrePadding(c: int, scaledEnd: real): (p: int)
    ensures p >= 0
    ensures p > 0 ==> p + c + 1 == RoundCast(scaledEnd)
    ensures p == 0 ==> RoundCast(scaledEnd) <= c + 1
  {
    var p := RoundCast(scaledEnd) - c - 1;
    if p < 0 then 0 else p
  }

  /** White rows (columns) to add after the bitmap, given the target size
      scaled back up (`n * sf`): what the unshrunken extent lacks of that
      size, rounded, clamped at zero. */
  function PostPadding(extent: nat, scaledTarget: real): (p: int)
    ensures p >= 0
    ensures extent + p >= RoundCast(scaledTarget)
    ensures p > 0 ==> extent + p == RoundCast(scaledTarget)
  {
    var p := RoundCast(scaledTarget) - extent;
    if p < 0 then 0 else p
  }

  /** The layout of one axis: the shrunken hot point, the shrunken size and
      the white borders before and after the unshrunken bitmap. */
  datatype AxisLayout = AxisLayout(hot: int, target: int, pre: int, post: int)
  {
    /** Size of the padded canvas along this axis. */
    function Canvas(extent: nat): (size: int)
      ensures pre >= 0 && post >= 0 ==> pre + extent <= size
      ensures size - pre - extent == post
    {
      extent + pre + post
    }
  }

  /** The layout of both axes of a shrunken glyph. */
  datatype Layout = Layout(cols: AxisLayout, rows: AxisLayout)

  /** Anchor alignment of a leading border `pre` for hot point `c`, whose
      shrunken hot point is `c2`, at scale `sf`: where the border is not
      clamped (always, for a hot point before the origin) the border plus the
      hot point plus one is the rounded scaled-up end of the hot point's
      target pixel, and for a hot point at or after the origin the border is
      less than one shrunken pixel. */
  predicate AnchorAligned(pre: int, c2: int, c: int, sf: real) {
    (pre > 0 || c < 0 ==> pre + c + 1 == RoundCast((1.0 + c2 as real) * sf)) &&
    (0 <= c ==> pre as real < sf)
  }

  function Axis(c: int, extent: nat, sf: real): (a: AxisLayout)
    requires sf > 0.0
    ensures a.hot == ScaledHotPoint(c, sf)
    ensures a.target >= 1 && a.pre >= 0 && a.post >= 0
    ensures extent <= a.pre + extent <= a.Canvas(extent)
  {
    var c2 := ScaledHotPoint(c, sf);
    var n := ShrunkExtent(c, extent, sf);
    AxisLayout(c2, n, PrePadding(c, (1.0 + c2 as real) * sf), PostPadding(extent, n as real * sf))
  }

  /** The geometry of shrinking a `w` by `h` bitmap with hot point `(x, y)`
      at display shrink factor `shrinkFactor`. Target sizes are at least one
      pixel, all four paddings are non-negative, the bitmap fits inside the
      padded canvas at offset `(cols.pre, rows.pre)`, and a hot point inside
      the bitmap lands inside the target. */
  function ComputeLayout(shrinkFactor: real, w: nat, h: nat, x: int, y: int): (g: Layout)
    requires shrinkFactor > 0.0
    ensures g.cols.hot == ScaledHotPoint(x, EffectiveScale(shrinkFactor))
    ensures g.rows.hot == ScaledHotPoint(y, EffectiveScale(shrinkFactor))
    ensures g.cols.target >= 1 && g.rows.target >= 1
    ensures g.rows.pre >= 0 && g.rows.post >= 0 && g.cols.pre >= 0 && g.cols.post >= 0
    ensures g.cols.pre + w <= g.cols.Canvas(w) && g.rows.pre + h <= g.rows.Canvas(h)
    ensures 0 <= x <= w ==> 0 <= g.cols.hot < g.cols.target
    ensures 0 <= y <= h ==> 0 <= g.rows.hot < g.rows.target
  {
    var sf := EffectiveScale(shrinkFactor);
    Layout(Axis(x, w, sf), Axis(y, h, sf))
  }

  /** Anchor alignment: after the pre-padding, the hot point's pixel ends
      where the rounded end of its target pixel lies, scaled back up. The
      clamp at zero only ever moves it by one unshrunken pixel, and only for
      a hot point at or after the origin; there the padding stays below one
      shrunken pixel. */
  lemma AnchorAlignment(c: int, sf: real)
    requires sf > 0.0
    ensures var c2 := ScaledHotPoint(c, sf);
      var r := RoundCast((1.0 + c2 as real) * sf);
      var p := PrePadding(c, (1.0 + c2 as real) * sf);
      AnchorAligned(p, c2, c, sf) && (0 <= c && p == 0 ==> c <= r <= c + 1)
  {
    HotPointEnd(c, sf);
    RoundedEnd(c, (1.0 + ScaledHotPoint(c, sf) as real) * sf, sf);
  }

  /** The leading border of an axis layout is the pre-padding at the
      scaled-up end of the hot point's target pixel. */
  lemma AxisPrePadding(c: int, extent: nat, sf: real)
    requires sf > 0.0
    ensures Axis(c, extent, sf).pre == PrePadding(c, (1.0 + ScaledHotPoint(c, sf) as real) * sf)
  {
  }

  /** Both axes of the layout that is handed to the painting library are
      anchor aligned. */
  lemma LayoutAnchorAlignment(shrinkFactor: real, w: nat, h: nat, x: int, y: int)
    requires shrinkFactor > 0.0
    ensures var g := ComputeLayout(shrinkFactor, w, h, x, y);
      var sf := EffectiveScale(shrinkFactor);
      AnchorAligned(g.cols.pre, g.cols.hot, x, sf) && AnchorAligned(g.rows.pre, g.rows.hot, y, sf)
  {
    var sf := EffectiveScale(shrinkFactor);
    var g := ComputeLayout(shrinkFactor, w, h, x, y);
    assert g.cols == Axis(x, w, sf) && g.rows == Axis(y, h, sf);
    AxisPrePadding(x, w, sf);
    AxisPrePadding(y, h, sf);
    AnchorAlignment(x, sf);
    AnchorAlignment(y, sf);
  }

  /** The end of the hot point's target pixel, scaled back up, lies in the
      unshrunken pixel span after the hot point (at or after `c + sf` for a
      negative hot point). */
  lemma HotPointEnd(c: int, sf: real)
    requires sf > 0.0
    ensures var e := (1.0 + ScaledHotPoint(c, sf) as real) * sf;
      (0 <= c ==> c as real < e <= c as real + sf) &&
      (c < 0 ==> c as real + sf <= e)
  {
    HotPointSpan(c, sf);
    TargetEndSpan(c as real, ScaledHotPoint(c, sf) as real, sf);
  }

  /** AnchorAlignment for a given scaled-up end `v` of the target pixel. */
  lemma RoundedEnd(c: int, v: real, sf: real)
    requires sf > 0.0
    requires 0 <= c ==> c as real < v <= c as real + sf
    requires c < 0 ==> c as real + sf <= v
    ensures var p := PrePadding(c, v);
      (p + c + 1 == RoundCast(v) || (0 <= c && p == 0 && RoundCast(v) == c)) &&
      (c < 0 ==> p + c + 1 == RoundCast(v)) &&
      (0 <= c ==> p as real < sf)
  {
  }

  /** Where the hot point's target pixel ends, scaled back up. */
  lemma TargetEndSpan(c: real, c2: real, sf: real)
    requires sf > 0.0
    requires 0.0 <= c ==> c2 * sf <= c < (1.0 + c2) * sf
    requires c < 0.0 ==> (c2 - 1.0) * sf < c <= c2 * sf
    ensures 0.0 <= c ==> c < (1.0 + c2) * sf <= c + sf
    ensures c < 0.0 ==> c + sf <= (1.0 + c2) * sf
  {
    MulAdd(1.0, c2, sf);
    MulAdd(c2, -1.0, sf);
  }

  /** A non-negative quotient by a scale of at most one is at least the
      dividend. */
  lemma QuotientAtLeast(a: real, sf: real)
    requires 0.0 <= a && 0.0 < sf <= 1.0
    ensures a <= a / sf
  {
    QuotientCompare(a, sf, a);
    if a > 0.0 {
      MulLe(sf, 1.0, a);
    }
  }

  /** At a scale of at most one, an axis with its hot point inside the
      bitmap shrinks to at least one pixel more than the bitmap: the
      characters come out slightly larger. */
  lemma ShrunkExtentAtLeastExtent(c: int, extent: nat, sf: real)
    requires 0.0 < sf <= 1.0 && 0 <= c <= extent
    ensures ShrunkExtent(c, extent, sf) >= extent + 1
  {
    assert ScaledHotPoint(c, sf) >= c by {
      QuotientAtLeast(c as real, sf);
    }
    assert RoundCast((extent - c) as real / sf) >= extent - c by {
      QuotientAtLeast((extent - c) as real, sf);
    }
  }

  /** At a display shrink factor up to one, a glyph with its hot point
      inside the bitmap gets a target at least one pixel wider and taller
      than the bitmap: the pixel of slack in the target size, at a scale
      that does not reduce. */
  lemma TargetExceedsBitmapUpToFactorOne(shrinkFactor: real, w: nat, h: nat, x: int, y: int)
    requires 0.0 < shrinkFactor <= 1.0 && 0 <= x <= w && 0 <= y <= h
    ensures var g := ComputeLayout(shrinkFactor, w, h, x, y);
      g.cols.target >= w + 1 && g.rows.target >= h + 1
  {
    var sf := EffectiveScale(shrinkFactor);
    ShrunkExtentAtLeastExtent(x, w, sf);
    ShrunkExtentAtLeastExtent(y, h, sf);
  }

  /** Dividing a non-negative number by a larger scale gives no more. */
  lemma QuotientAntitone(a: real, s1: real, s2: real)
    requires 0.0 <= a && 0.0 < s1 <= s2
    ensures a / s2 <= a / s1
  {
    var q := a / s2;
    QuotientCompare(a, s2, 0.0);
    DivMul(a, s2);
    if q > 0.0 {
      MulLe(s1, s2, q);
    }
    QuotientCompare(a, s1, q);
  }

  /** With the hot point inside the bitmap, a smaller scale never gives a
      smaller target: both the shrunken hot point and the rounded far part
      can only grow. */
  lemma ShrunkExtentMonotone(c: int, extent: nat, s1: real, s2: real)
    requires 0 <= c <= extent && 0.0 < s1 <= s2
    ensures ShrunkExtent(c, extent, s1) >= ShrunkExtent(c, extent, s2)
  {
    assert ScaledHotPoint(c, s1) >= ScaledHotPoint(c, s2) by {
      QuotientAntitone(c as real, s1, s2);
    }
    assert RoundCast((extent - c) as real / s1) >= RoundCast((extent - c) as real / s2) by {
      QuotientAntitone((extent - c) as real, s1, s2);
      QuotientCompare((extent - c) as real, s2, 0.0);
    }
  }

  /** Lowering the scale below the display shrink factor never makes
      characters smaller: with the hot point inside the bitmap, each target
      is at least the one the display shrink factor itself would give. */
  lemma LoweredScaleEnlarges(shrinkFactor: real, w: nat, h: nat, x: int, y: int)
    requires shrinkFactor > 0.0 && 0 <= x <= w && 0 <= y <= h
    ensures var g := ComputeLayout(shrinkFactor, w, h, x, y);
      g.cols.target >= Axis(x, w, shrinkFactor).target &&
      g.rows.target >= Axis(y, h, shrinkFactor).target
  {
    var sf := EffectiveScale(shrinkFactor);
    ShrunkExtentMonotone(x, w, sf, shrinkFactor);
    ShrunkExtentMonotone(y, h, sf, shrinkFactor);
  }

  /** A clamped leading border: at shrink factor 2 (scale 1.8) the hot
      point 5 of an 8-pixel axis goes to target pixel 2, whose end scaled
      back up, 5.4, rounds to 5. The border would be -1 and is clamped to 0,
      so the hot point's pixel ends at 6, one unshrunken pixel past the
      rounded end of its target pixel. */
  lemma ClampedAnchorAtTwo()
    ensures var g := ComputeLayout(2.0, 8, 8, 5, 5);
      g.cols.hot == 2 && g.cols.pre == 0 &&
      g.cols.pre + 5 + 1 == RoundCast((1.0 + g.cols.hot as real) * EffectiveScale(2.0)) + 1
  {
    var sf := EffectiveScale(2.0);
    assert sf == 1.8;
    assert ScaledHotPoint(5, sf) == 2;
    assert RoundCast((1.0 + 2 as real) * sf) == 5;
  }

  /** Shrinking the 8 by 8 glyph with hot point (4, 4) at shrink factor 2:
      the scale is 1.8, the hot point goes to (2, 2), the target is 5 by 5
      and the canvas gets one white row and one white column at its end. */
  lemma EightByEightAtTwo()
    ensures var a := AxisLayout(2, 5, 0, 1);
      ComputeLayout(2.0, 8, 8, 4, 4) == Layout(a, a) && a.Canvas(8) == 9
  {
    var sf := EffectiveScale(2.0);
    assert sf == 1.8;
    assert ScaledHotPoint(4, sf) == 2;
    assert ShrunkExtent(4, 8, sf) == 5;
  }
}
