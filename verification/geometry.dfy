/**
 Pixel to millimetre to point conversion of index.js.

 Every length the capture library reports is in CSS pixels; the PDF page
 is measured in millimetres and font sizes in points. One ratio, the page
 content width over the root's pixel width, turns pixels into
 millimetres; positions are additionally shifted by the root's own offset
 in the page and by the PDF padding. The source keeps the ratio, the
 offsets and the options in module-level variables; here they are the
 fields of an explicit `Context`. Arithmetic is exact (`real`).
 */
module Geometry {

  /** A4 page size in millimetres (`pdfSize`). The height is declared
      but never read. */
  const PdfWidth: real := 210.0
  const PdfHeight: real := 297.0

  /** Millimetres to points, as written in `transformSize2pt`. */
  const MmToPt: real := 2.8346456693

  datatype Padding = Padding(top: real, left: real, right: real, bottom: real)

  datatype PdfOptions = PdfOptions(padding: Padding)

  /** `pdfOptions` as shipped: no padding on any side. */
  const DefaultOptions: PdfOptions := PdfOptions(Padding(0.0, 0.0, 0.0, 0.0))

  /** The module-level variables the transforms read: `pdfOptions`,
      `px2mmRatio`, `offsetLeft` and `offsetTop`. */
  datatype Context = Context(options: PdfOptions, ratio: real, offsetLeft: real, offsetTop: real)

  /** A CSS size token as the capture library reports it. */
  datatype FontSize = FontSize(number: real, unit: string)

  /** Width of the page between the left and right padding. */
  function ContentWidth(options: PdfOptions): (w: real)
    ensures options.padding.left + w + options.padding.right == PdfWidth
  {
    PdfWidth - (options.padding.left + options.padding.right)
  }

  /** `setPx2mmRatio`: the ratio that makes `width` pixels span the
      content width. A zero width would make JavaScript divide by zero. */
  function Px2mmRatio(options: PdfOptions, width: real): (ratio: real)
    requires width != 0.0
    ensures ratio * width == ContentWidth(options)
    ensures width > 0.0 && ContentWidth(options) > 0.0 ==> ratio > 0.0
  {
    ContentWidth(options) / width
  }

  /** The state after `setPx2mmRatio(root.bounds.width)` and `setOffset`:
      the root's width fills the content width, so its right edge lands on
      the right padding (its left edge lands on the left padding by
      `OffsetMapsToPadding`). */
  function NewContext(options: PdfOptions, rootWidth: real, offsetLeft: real, offsetTop: real): (ctx: Context)
    requires rootWidth != 0.0
    ensures TransformSize(ctx, rootWidth) == ContentWidth(options)
    ensures TransformLeft(ctx, offsetLeft + rootWidth) == options.padding.left + ContentWidth(options)
    ensures TransformLeft(ctx, offsetLeft) == options.padding.left
    ensures TransformTop(ctx, offsetTop) == options.padding.top
  {
    Context(options, Px2mmRatio(options, rootWidth), offsetLeft, offsetTop)
  }

  /** `transformSize`: a pixel length in millimetres. */
  function TransformSize(ctx: Context, px: real): (mm: real)
    ensures ctx.ratio != 0.0 ==> mm / ctx.ratio == px
    ensures px >= 0.0 && ctx.ratio >= 0.0 ==> mm >= 0.0
  {
    MulDivCancel(px, ctx.ratio);
    px * ctx.ratio
  }

  /** Multiplying by a non-zero factor and dividing by it again is the
      identity. */
  lemma MulDivCancel(x: real, r: real)
    ensures r != 0.0 ==> (x * r) / r == x
  {
  }

  /** `transformLeft`: a pixel x-coordinate as a page x-coordinate. */
  function TransformLeft(ctx: Context, px: real): (x: real)
    ensures ctx.ratio != 0.0 ==> ctx.offsetLeft + (x - ctx.options.padding.left) / ctx.ratio == px
  {
    ctx.options.padding.left + TransformSize(ctx, px - ctx.offsetLeft)
  }

  /** `transformTop`: a pixel y-coordinate as a page y-coordinate. */
  function TransformTop(ctx: Context, px: real): (y: real)
    ensures ctx.ratio != 0.0 ==> ctx.offsetTop + (y - ctx.options.padding.top) / ctx.ratio == px
  {
    ctx.options.padding.top + TransformSize(ctx, px - ctx.offsetTop)
  }

  /** `transformSize2pt`: a pixel length in points. */
  function TransformSize2pt(ctx: Context, px: real): (pt: real)
    ensures pt / MmToPt == TransformSize(ctx, px)
  {
    TransformSize(ctx, px) * MmToPt
  }

  /** `fontSize2px`: the magnitude of the token; the unit is read and
      ignored. */
  function FontSize2px(fontSize: FontSize): (px: real)
    ensures px == fontSize.number
  {
    fontSize.number
  }

  /** The inverse of `TransformSize` for a non-zero ratio. */
  function UntransformSize(ctx: Context, mm: real): real
    requires ctx.ratio != 0.0
  {
    mm / ctx.ratio
  }

  // ---------------------------------------------------------------------
  // Properties.
  // ---------------------------------------------------------------------

  /** `transformSize` is linear: additive, homogeneous and zero at zero. */
  lemma SizeIsLinear(ctx: Context, a: real, b: real, k: real)
    ensures TransformSize(ctx, 0.0) == 0.0
    ensures TransformSize(ctx, a + b) == TransformSize(ctx, a) + TransformSize(ctx, b)
    ensures TransformSize(ctx, k * a) == k * TransformSize(ctx, a)
  {
  }

  /** With a non-zero ratio, `transformSize` is invertible both ways. */
  lemma SizeRoundTrip(ctx: Context, px: real, mm: real)
    requires ctx.ratio != 0.0
    ensures UntransformSize(ctx, TransformSize(ctx, px)) == px
    ensures TransformSize(ctx, UntransformSize(ctx, mm)) == mm
  {
  }

  /** Positions are translations of sizes: the distance between two
      transformed positions is the transformed distance. */
  lemma PositionsAreTranslations(ctx: Context, a: real, b: real)
    ensures TransformLeft(ctx, a) - TransformLeft(ctx, b) == TransformSize(ctx, a - b)
    ensures TransformTop(ctx, a) - TransformTop(ctx, b) == TransformSize(ctx, a - b)
  {
  }

  /** The root's offset is mapped onto the padding corner of the page. */
  lemma OffsetMapsToPadding(ctx: Context)
    ensures TransformLeft(ctx, ctx.offsetLeft) == ctx.options.padding.left
    ensures TransformTop(ctx, ctx.offsetTop) == ctx.options.padding.top
  {
  }

  /** With a positive ratio both position maps are strictly increasing,
      so the left-to-right and top-to-bottom order of the page is kept. */
  lemma PositionsStrictlyIncreasing(ctx: Context, a: real, b: real)
    requires ctx.ratio > 0.0
    requires a < b
    ensures TransformLeft(ctx, a) < TransformLeft(ctx, b)
    ensures TransformTop(ctx, a) < TransformTop(ctx, b)
  {
    PositionsAreTranslations(ctx, b, a);
    assert (b - a) * ctx.ratio > 0.0;
  }

  /** Points are millimetres times the constant, itself 72 / 25.4 to
      within 10^-10. */
  lemma PointsFromMillimetres(ctx: Context, a: real, b: real)
    ensures TransformSize2pt(ctx, a + b) == TransformSize2pt(ctx, a) + TransformSize2pt(ctx, b)
    ensures -0.0000000001 < MmToPt - 72.0 / 25.4 < 0.0000000001
  {
  }

  /** `fontSize2px` returns the magnitude whatever the unit. */
  lemma FontSizeIgnoresUnit(n: real, u1: string, u2: string)
    ensures FontSize2px(FontSize(n, u1)) == FontSize2px(FontSize(n, u2)) == n
  {
  }

  /** The shipped configuration on an 800-pixel root at the page origin:
      the ratio is 210 / 800 = 0.2625 and pixel 100 lands at 26.25 mm. */
  lemma Root800Example()
    ensures Px2mmRatio(DefaultOptions, 800.0) == 0.2625
    ensures var ctx := Context(DefaultOptions, Px2mmRatio(DefaultOptions, 800.0), 0.0, 0.0);
      TransformSize(ctx, 100.0) == 26.25 && TransformLeft(ctx, 100.0) == 26.25
  {
    assert Px2mmRatio(DefaultOptions, 800.0) == 0.2625 by {
      assert ContentWidth(DefaultOptions) == 210.0;
      assert 210.0 / 800.0 == 0.2625;
    }
  }
}
