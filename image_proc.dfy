/**
 * The wallpaper geometry of `fit_to_size`, `fill_to_size` and
 * `combine_fit_and_fill`: the sizes passed to the resampler, the corners
 * passed to the cropper, the blur radius and the paste offset. Scale factors
 * are exact rationals instead of `f64`, so `(side as f64 * scale) as u32`
 * becomes the floor of an exact product. The pixel operations themselves
 * (resize, crop, blur, watermark) are not modelled: a plan records the
 * arguments the program hands to them.
 */
module ImageProc {

  const U32_LIMIT: int := 0x1_0000_0000
  const I32_LIMIT: int := 0x8000_0000

  /** A width and a height in pixels. */
  datatype Size = Size(width: nat, height: nat)

  /** A scale factor `num / den`; every scale in the program has `den > 0`. */
  datatype Scale = Scale(num: nat, den: nat)

  predicate NonEmpty(s: Size) {
    s.width > 0 && s.height > 0
  }

  /** `a <= b` as rationals, by cross-multiplication. */
  predicate AtMost(a: Scale, b: Scale) {
    a.num * b.den <= b.num * a.den
  }

  /** `f64::min` on two scale factors. */
  function MinScale(a: Scale, b: Scale): Scale {
    if AtMost(a, b) then a else b
  }

  /** `f64::max` on two scale factors. */
  function MaxScale(a: Scale, b: Scale): Scale {
    if AtMost(a, b) then b else a
  }

  /** `(side as f64 * scale) as u32`, computed exactly: the floor of `side * num / den`. */
  function Apply(side: nat, s: Scale): nat
    requires s.den > 0
  {
    side * s.num / s.den
  }

  /** The factor that maps the image's width onto the screen's. */
  function WidthRatio(img: Size, screen: Size): Scale {
    Scale(screen.width, img.width)
  }

  /** The factor that maps the image's height onto the screen's. */
  function HeightRatio(img: Size, screen: Size): Scale {
    Scale(screen.height, img.height)
  }

  /** The width is the constraining axis: screenW / imgW <= screenH / imgH. */
  predicate WidthConstrains(img: Size, screen: Size) {
    AtMost(WidthRatio(img, screen), HeightRatio(img, screen))
  }

  /** `fit_to_size`: the size the image is resized to so that it fits inside the screen. */
  function FitSize(img: Size, screen: Size): Size
    requires NonEmpty(img)
  {
    var scale := MinScale(WidthRatio(img, screen), HeightRatio(img, screen));
    Size(Apply(img.width, scale), Apply(img.height, scale))
  }

  /** `fill_to_size`: the size the image is resized to so that it covers the screen. */
  function FillSize(img: Size, screen: Size): Size
    requires NonEmpty(img)
  {
    var scale := MaxScale(WidthRatio(img, screen), HeightRatio(img, screen));
    Size(Apply(img.width, scale), Apply(img.height, scale))
  }

  // ---------------------------------------------------------------------------
  // Arithmetic facts about floor division used below.

  /** A multiple of a positive `d` that is smaller than `d` is a multiple by less than one. */
  lemma FactorBelowOne(k: int, d: nat)
    requires d > 0 && k * d < d
    ensures k < 1
  {
    assert k >= 1 ==> k * d >= d;
  }

  lemma MulDivCancel(a: nat, d: nat)
    requires d > 0
    ensures a * d / d == a
  {
    var q, r := a * d / d, a * d % d;
    assert (a - q) * d == r && (q - a) * d == -r;
    FactorBelowOne(a - q, d);
    FactorBelowOne(q - a, d);
  }

  lemma DivMonotone(a: nat, b: nat, d: nat)
    requires d > 0 && a <= b
    ensures a / d <= b / d
  {
    var qa, qb := a / d, b / d;
    assert (qa - qb) * d == (a - a % d) - (b - b % d);
    FactorBelowOne(qa - qb, d);
  }

  /** The floor of `n / d` is the `q` with `q * d <= n < (q + 1) * d`. */
  lemma DivBounds(n: nat, d: nat)
    requires d > 0
    ensures (n / d) * d <= n < (n / d + 1) * d
  {
    assert n == (n / d) * d + n % d;
  }

  // ---------------------------------------------------------------------------
  // Fit

  /**
   * Closed form of the fit size: when the width constrains, the fit is
   * `(screenW, imgH * screenW div imgW)`; otherwise `(imgW * screenH div imgH, screenH)`.
   */
  lemma FitSizeClosedForm(img: Size, screen: Size)
    requires NonEmpty(img)
    ensures WidthConstrains(img, screen) ==>
      FitSize(img, screen) == Size(screen.width, img.height * screen.width / img.width)
    ensures !WidthConstrains(img, screen) ==>
      FitSize(img, screen) == Size(img.width * screen.height / img.height, screen.height)
  {
    if WidthConstrains(img, screen) {
      MulDivCancel(screen.width, img.width);
      assert img.width * screen.width == screen.width * img.width;
      assert img.height * screen.width == screen.width * img.height;
    } else {
      MulDivCancel(screen.height, img.height);
      assert img.height * screen.height == screen.height * img.height;
    }
  }

  /** The fit image never exceeds the screen, and touches it on the constraining axis. */
  lemma FitWithinScreen(img: Size, screen: Size)
    requires NonEmpty(img)
    ensures FitSize(img, screen).width <= screen.width
    ensures FitSize(img, screen).height <= screen.height
    ensures WidthConstrains(img, screen) ==> FitSize(img, screen).width == screen.width
    ensures !WidthConstrains(img, screen) ==> FitSize(img, screen).height == screen.height
  {
    FitSizeClosedForm(img, screen);
    if WidthConstrains(img, screen) {
      // imgH * screenW <= screenH * imgW
      DivMonotone(img.height * screen.width, screen.height * img.width, img.width);
      MulDivCancel(screen.height, img.width);
    } else {
      // imgW * screenH < screenW * imgH
      DivMonotone(img.width * screen.height, screen.width * img.height, img.height);
      MulDivCancel(screen.width, img.height);
    }
  }

  /**
   * The fit keeps the aspect ratio: its free side is the image's side times
   * the constraining ratio, rounded down (the largest side that does not
   * stretch the image).
   */
  lemma FitKeepsAspect(img: Size, screen: Size)
    requires NonEmpty(img)
    ensures WidthConstrains(img, screen) ==>
      FitSize(img, screen).height * img.width <= img.height * screen.width
        < (FitSize(img, screen).height + 1) * img.width
    ensures !WidthConstrains(img, screen) ==>
      FitSize(img, screen).width * img.height <= img.width * screen.height
        < (FitSize(img, screen).width + 1) * img.height
  {
    FitSizeClosedForm(img, screen);
    DivBounds(img.height * screen.width, img.width);
    DivBounds(img.width * screen.height, img.height);
  }

  // ---------------------------------------------------------------------------
  // Fill

  /**
   * Closed form of the fill size, the mirror image of the fit: when the width
   * constrains the fit, the height drives the fill.
   */
  lemma FillSizeClosedForm(img: Size, screen: Size)
    requires NonEmpty(img)
    ensures WidthConstrains(img, screen) ==>
      FillSize(img, screen) == Size(img.width * screen.height / img.height, screen.height)
    ensures !WidthConstrains(img, screen) ==>
      FillSize(img, screen) == Size(screen.width, img.height * screen.width / img.width)
  {
    if WidthConstrains(img, screen) {
      MulDivCancel(screen.height, img.height);
      assert img.height * screen.height == screen.height * img.height;
    } else {
      MulDivCancel(screen.width, img.width);
      assert img.width * screen.width == screen.width * img.width;
    }
  }

  /** The fill image covers the screen on both axes and equals it on the driving axis. */
  lemma FillCoversScreen(img: Size, screen: Size)
    requires NonEmpty(img)
    ensures FillSize(img, screen).width >= screen.width
    ensures FillSize(img, screen).height >= screen.height
    ensures WidthConstrains(img, screen) ==> FillSize(img, screen).height == screen.height
    ensures !WidthConstrains(img, screen) ==> FillSize(img, screen).width == screen.width
  {
    FillSizeClosedForm(img, screen);
    if WidthConstrains(img, screen) {
      // screenW * imgH <= screenH * imgW
      DivMonotone(screen.width * img.height, img.width * screen.height, img.height);
      MulDivCancel(screen.width, img.height);
    } else {
      DivMonotone(screen.height * img.width, img.height * screen.width, img.width);
      MulDivCancel(screen.height, img.width);
    }
  }

  // ---------------------------------------------------------------------------
  // Centre crop of the fill image

  /** The crop corners `fill_to_size` computes in `i32` before casting them. */
  datatype CropWindow = CropWindow(left: int, top: int, right: int, bottom: int)

  /** Centre minus half the screen gives the top-left corner; adding the screen gives the bottom-right. */
  function CenteredWindow(fill: Size, screen: Size): CropWindow {
    var centerX := fill.width / 2;
    var centerY := fill.height / 2;
    var left := centerX - screen.width / 2;
    var top := centerY - screen.height / 2;
    CropWindow(left, top, left + screen.width, top + screen.height)
  }

  /** `x as u32` for an `i32` value: two's-complement reinterpretation, so a negative value wraps. */
  function AsU32(x: int): (r: nat)
    ensures r < U32_LIMIT
    ensures 0 <= x < U32_LIMIT ==> r == x
    ensures -U32_LIMIT <= x < 0 ==> r == x + U32_LIMIT
  {
    x % U32_LIMIT
  }

  /** When the fill covers the screen, the window lies inside the fill, has the screen's size and is centred. */
  lemma CenteredWindowInside(fill: Size, screen: Size)
    requires fill.width >= screen.width && fill.height >= screen.height
    ensures var w := CenteredWindow(fill, screen);
      && 0 <= w.left && 0 <= w.top
      && w.right - w.left == screen.width && w.bottom - w.top == screen.height
      && w.right <= fill.width && w.bottom <= fill.height
      && -1 <= (fill.width - w.right) - w.left <= 1
      && -1 <= (fill.height - w.bottom) - w.top <= 1
  {
  }

  /** What `fill_to_size` hands to the library: the resize size, then the four crop arguments. */
  datatype FillPlan = FillPlan(resized: Size, x1: nat, y1: nat, x2: nat, y2: nat)

  /** The second half of `fill_to_size`: crop a centred window of whatever size the resize produced, corners cast with `as u32`. */
  function CropPlan(fill: Size, screen: Size): FillPlan {
    var w := CenteredWindow(fill, screen);
    FillPlan(fill, AsU32(w.left), AsU32(w.top), AsU32(w.right), AsU32(w.bottom))
  }

  /**
   * If the resized width falls one pixel short of an even screen width (as
   * the `f64` product can, rounding just below a whole number before the
   * truncating cast), the left corner is -1 and its `as u32` cast wraps to
   * 2^32 - 1, past the right corner.
   */
  lemma ShortFillWrapsCrop(fill: Size, screen: Size)
    requires fill.width + 1 == screen.width && screen.width % 2 == 0 && screen.width < I32_LIMIT
    ensures CenteredWindow(fill, screen).left == -1
    ensures CropPlan(fill, screen).x1 == U32_LIMIT - 1 > CropPlan(fill, screen).x2 == screen.width - 1
  {
  }

  /** `fill_to_size`: resize to cover, then crop a centred window (corners cast with `as u32`). */
  function FillToSize(img: Size, screen: Size): FillPlan
    requires NonEmpty(img)
  {
    CropPlan(FillSize(img, screen), screen)
  }

  /**
   * With exact scales, the `as u32` casts in `fill_to_size` never wrap (for
   * sides that fit in an `i32`): the crop arguments are the exact centred corners, they span
   * exactly the screen and stay within the resized image.
   */
  lemma FillToSizeCropsScreen(img: Size, screen: Size)
    requires NonEmpty(img)
    requires FillSize(img, screen).width < I32_LIMIT && FillSize(img, screen).height < I32_LIMIT
    ensures var p := FillToSize(img, screen);
      var w := CenteredWindow(p.resized, screen);
      && p.x1 == w.left && p.y1 == w.top && p.x2 == w.right && p.y2 == w.bottom
      && p.x2 - p.x1 == screen.width && p.y2 - p.y1 == screen.height
      && p.x2 <= p.resized.width && p.y2 <= p.resized.height
  {
    FillCoversScreen(img, screen);
    CenteredWindowInside(FillSize(img, screen), screen);
  }

  // ---------------------------------------------------------------------------
  // Blur and paste

  function Max(a: nat, b: nat): nat {
    if a >= b then a else b
  }

  /** `(screen_width.max(screen_height) as f32 / 40.0) as i32`, exactly. */
  function BlurRadius(screen: Size): nat {
    Max(screen.width, screen.height) / 40
  }

  /** The blur radius is the floor of the longer side over 40, and it is 0 exactly when both sides are under 40. */
  lemma BlurRadiusBounds(screen: Size)
    ensures 40 * BlurRadius(screen) <= Max(screen.width, screen.height) < 40 * (BlurRadius(screen) + 1)
    ensures BlurRadius(screen) == 0 <==> screen.width < 40 && screen.height < 40
  {
  }

  /** What `combine_fit_and_fill` hands to the library: the blur radius and where the fit image is pasted. */
  datatype CombinePlan = CombinePlan(blurRadius: nat, pasteX: nat, pasteY: nat)

  /**
   * `combine_fit_and_fill`. The `u32` subtractions `screen - fit` require the
   * fit image to be no larger than the screen; the offset then centres it.
   */
  function CombineFitAndFill(fit: Size, screen: Size): (r: CombinePlan)
    requires fit.width <= screen.width && fit.height <= screen.height
    ensures r.pasteX + fit.width <= screen.width && r.pasteY + fit.height <= screen.height
    ensures 0 <= (screen.width - (r.pasteX + fit.width)) - r.pasteX <= 1
    ensures 0 <= (screen.height - (r.pasteY + fit.height)) - r.pasteY <= 1
    ensures fit == screen ==> r.pasteX == 0 && r.pasteY == 0
    ensures 40 * r.blurRadius <= Max(screen.width, screen.height) < 40 * (r.blurRadius + 1)
  {
    CombinePlan(BlurRadius(screen), (screen.width - fit.width) / 2, (screen.height - fit.height) / 2)
  }

  /** The plans for one source image on one screen: fit, fill-and-crop, then combine. */
  datatype WallpaperPlan = WallpaperPlan(fit: Size, fill: FillPlan, combine: CombinePlan)

  /**
   * The three steps applied to one image and one screen. The fit size always
   * satisfies the subtraction bound of `combine_fit_and_fill`, so the paste
   * offset never underflows.
   */
  function Wallpaper(img: Size, screen: Size): (r: WallpaperPlan)
    requires NonEmpty(img)
    ensures r.fit.width <= screen.width && r.fit.height <= screen.height
    ensures r.combine.pasteX + r.fit.width <= screen.width
    ensures r.combine.pasteY + r.fit.height <= screen.height
    ensures r.fill.resized.width >= screen.width && r.fill.resized.height >= screen.height
  {
    var fit := FitSize(img, screen);
    FitWithinScreen(img, screen);
    FillCoversScreen(img, screen);
    WallpaperPlan(fit, FillToSize(img, screen), CombineFitAndFill(fit, screen))
  }

  /** A 4000x2000 source on a 1920x1080 screen. */
  lemma LandscapeExample()
    ensures var p := Wallpaper(Size(4000, 2000), Size(1920, 1080));
      && p.fit == Size(1920, 960)
      && p.fill == FillPlan(Size(2160, 1080), 120, 0, 2040, 1080)
      && p.combine == CombinePlan(48, 0, 60)
  {
  }

  /** An 800x1200 portrait source on a 1920x1080 screen. */
  lemma PortraitExample()
    ensures var p := Wallpaper(Size(800, 1200), Size(1920, 1080));
      && p.fit == Size(720, 1080)
      && p.fill == FillPlan(Size(1920, 2880), 0, 900, 1920, 1980)
      && p.combine == CombinePlan(48, 600, 0)
  {
  }
}
