/** Aspect-preserving fit of a grayscale page into a canvas, and centred padding to the head width. */
module FitCanvas {
  import opened Prelude
  import opened Bytes
  import Raster

  datatype FitError = FitDimensions | HeadDimensions | PaddingDimensions

  predicate FitLegal(gray: seq<byte>, width: int, height: int, canvasWidth: int, canvasHeight: int)
  {
    width > 0 && height > 0 && 0 < canvasWidth <= 1664 && 0 < canvasHeight <= 2842 && |gray| == width * height
  }

  // ----- the fitted window, with the scale as an exact real

  function Scale(width: int, height: int, canvasWidth: int, canvasHeight: int): real
    requires width > 0 && height > 0
  {
    var scaleX := canvasWidth as real / width as real;
    var scaleY := canvasHeight as real / height as real;
    if scaleY < scaleX then scaleY else scaleX
  }

  /** n scaled, rounded half up, and at least 1. */
  function Scaled(n: int, scale: real): int
  {
    var d := (n as real * scale + 0.5).Floor;
    if d < 1 then 1 else d
  }

  datatype Window = Window(x0: int, y0: int, width: int, height: int)

  function WindowOf(width: int, height: int, canvasWidth: int, canvasHeight: int): Window
    requires width > 0 && height > 0
  {
    var scale := Scale(width, height, canvasWidth, canvasHeight);
    var w, h := Scaled(width, scale), Scaled(height, scale);
    Window((canvasWidth - w) / 2, (canvasHeight - h) / 2, w, h)
  }

  predicate Inside(win: Window, y: int, x: int)
  {
    win.y0 <= y < win.y0 + win.height && win.x0 <= x < win.x0 + win.width
  }

  ghost predicate WindowFits(win: Window, canvasWidth: int, canvasHeight: int)
  {
    && 1 <= win.width <= canvasWidth && 1 <= win.height <= canvasHeight
    && 0 <= win.x0 && win.x0 + win.width <= canvasWidth
    && 0 <= win.y0 && win.y0 + win.height <= canvasHeight
  }

  lemma ScaleBack(n: int, m: int)
    requires n > 0
    ensures n as real * (m as real / n as real) == m as real
  {
  }

  lemma ScaledAtMost(n: int, m: int, scale: real)
    requires n > 0 && m > 0 && scale <= m as real / n as real
    ensures 1 <= Scaled(n, scale) <= m
    ensures scale == m as real / n as real ==> Scaled(n, scale) == m
  {
    ScaleBack(n, m);
    assert n as real * scale <= n as real * (m as real / n as real);
  }

  /** The window lies inside the canvas, fills it exactly in one dimension, and is centred: opposite
      margins differ by at most one, the extra line being on the right or at the bottom. */
  lemma WindowIsLetterbox(width: int, height: int, canvasWidth: int, canvasHeight: int)
    requires width > 0 && height > 0 && canvasWidth > 0 && canvasHeight > 0
    ensures var win := WindowOf(width, height, canvasWidth, canvasHeight);
            && WindowFits(win, canvasWidth, canvasHeight)
            && (win.width == canvasWidth || win.height == canvasHeight)
            && 0 <= (canvasWidth - win.width - win.x0) - win.x0 <= 1
            && 0 <= (canvasHeight - win.height - win.y0) - win.y0 <= 1
  {
    var scale := Scale(width, height, canvasWidth, canvasHeight);
    ScaledAtMost(width, canvasWidth, scale);
    ScaledAtMost(height, canvasHeight, scale);
  }

  /** The dimension that does not fill the canvas is the exactly scaled one to the nearest unit,
      unless that would be nothing. */
  lemma AspectIsKept(width: int, height: int, canvasWidth: int, canvasHeight: int)
    requires width > 0 && height > 0 && canvasWidth > 0 && canvasHeight > 0
    ensures var win := WindowOf(width, height, canvasWidth, canvasHeight);
            var scale := Scale(width, height, canvasWidth, canvasHeight);
            && (-0.5 < win.width as real - width as real * scale <= 0.5 || (win.width == 1 && width as real * scale < 0.5))
            && (-0.5 < win.height as real - height as real * scale <= 0.5 || (win.height == 1 && height as real * scale < 0.5))
  {
    var scale := Scale(width, height, canvasWidth, canvasHeight);
    assert scale > 0.0;
    Rounding(width, scale);
    Rounding(height, scale);
  }

  lemma Rounding(n: int, scale: real)
    requires n > 0 && scale > 0.0
    ensures -0.5 < Scaled(n, scale) as real - n as real * scale <= 0.5
            || (Scaled(n, scale) == 1 && n as real * scale < 0.5)
  {
    var v := n as real * scale;
    assert v > 0.0;
    var d := (v + 0.5).Floor;
    assert d as real <= v + 0.5 < d as real + 1.0;
  }

  /** A number is near another when rounding errors of a tenth explain the difference. */
  predicate Near(a: real, b: real) { -0.1 <= a - b <= 0.1 }

  /** Inexact arithmetic does no harm to the window: however the two scales, the products and the
      sums are rounded, as long as each stays within a tenth of a unit, the window that comes out
      lies inside the canvas and fills it exactly in one dimension. */
  lemma WindowSurvivesRounding(width: int, height: int, canvasWidth: int, canvasHeight: int,
                               scaleX: real, scaleY: real, scale: real, sumW: real, sumH: real)
    requires width > 0 && height > 0 && canvasWidth > 0 && canvasHeight > 0
    requires Near(width as real * scaleX, canvasWidth as real) && Near(height as real * scaleY, canvasHeight as real)
    requires scale == if scaleY < scaleX then scaleY else scaleX
    requires Near(sumW, width as real * scale + 0.5) && Near(sumH, height as real * scale + 0.5)
    ensures var w, h := if sumW.Floor < 1 then 1 else sumW.Floor, if sumH.Floor < 1 then 1 else sumH.Floor;
            && WindowFits(Window((canvasWidth - w) / 2, (canvasHeight - h) / 2, w, h), canvasWidth, canvasHeight)
            && (w == canvasWidth || h == canvasHeight)
  {
    hide Near, WindowFits;
    Monotone(width, scale, scaleX);
    Monotone(height, scale, scaleY);
    assert scale == scaleX || scale == scaleY;
    RoundedWindow(canvasWidth, canvasHeight, width as real * scaleX, height as real * scaleY,
                  width as real * scale, height as real * scale, sumW, sumH);
  }

  lemma RoundedWindow(canvasWidth: int, canvasHeight: int, fullW: real, fullH: real, w: real, h: real, sumW: real, sumH: real)
    requires canvasWidth > 0 && canvasHeight > 0
    requires Near(fullW, canvasWidth as real) && Near(fullH, canvasHeight as real)
    requires w <= fullW && h <= fullH && (w == fullW || h == fullH)
    requires Near(sumW, w + 0.5) && Near(sumH, h + 0.5)
    ensures var dw, dh := if sumW.Floor < 1 then 1 else sumW.Floor, if sumH.Floor < 1 then 1 else sumH.Floor;
            && WindowFits(Window((canvasWidth - dw) / 2, (canvasHeight - dh) / 2, dw, dh), canvasWidth, canvasHeight)
            && (dw == canvasWidth || dh == canvasHeight)
  {
    RoundedSide(sumW, w, canvasWidth);
    RoundedSide(sumH, h, canvasHeight);
  }

  lemma RoundedSide(v: real, p: real, n: int)
    requires n > 0 && p <= n as real + 0.1 && Near(v, p + 0.5)
    ensures var d := if v.Floor < 1 then 1 else v.Floor;
            1 <= d <= n && (Near(p, n as real) ==> d == n)
  {
  }

  lemma Monotone(n: int, a: real, b: real)
    requires n > 0 && a <= b
    ensures n as real * a <= n as real * b
  {
  }

  // ----- sampling

  /** The source line sampled for line i of n shown lines. */
  function Sample(i: int, source: int, shown: int): int
    requires shown > 0
  {
    i * source / shown
  }

  lemma ProductOrder(q: int, m: int, d: int)
    requires d > 0
    ensures q >= m ==> d * q >= d * m
    ensures q < m ==> d * q <= d * m - d
  {
    if q >= m {
      ProductSign(d, q - m);
      assert d * (q - m) == d * q - d * m;
    } else {
      ProductSign(d, m - 1 - q);
      assert d * (m - 1 - q) == d * m - d - d * q;
    }
  }

  lemma ProductSign(a: nat, b: nat)
    ensures a * b >= 0
  {
  }

  lemma QuotientRange(a: int, d: int, m: int)
    requires d > 0 && 0 <= a < d * m
    ensures 0 <= a / d < m && d * (a / d) <= a < d * (a / d) + d
  {
    var q := a / d;
    assert a == d * q + a % d;
    ProductOrder(q, m, d);
    ProductOrder(q, 0, d);
  }

  /** The sample is the source line in whose share of the window line i begins. */
  lemma SampleInRange(i: int, source: int, shown: int)
    requires 0 <= i < shown && source > 0
    ensures 0 <= Sample(i, source, shown) < source
    ensures Sample(i, source, shown) * shown <= i * source < (Sample(i, source, shown) + 1) * shown
  {
    ProductOrder(i, shown, source);
    ProductOrder(i, 0, source);
    Commute(i, source);
    Commute(shown, source);
    QuotientRange(i * source, shown, source);
    var q := Sample(i, source, shown);
    Commute(shown, q);
    assert (q + 1) * shown == q * shown + shown;
  }

  lemma Commute(a: int, b: int)
    ensures a * b == b * a
  {
  }

  function FitPixel(gray: seq<byte>, width: int, height: int, win: Window, y: int, x: int): byte
    requires width > 0 && height > 0 && |gray| == width * height && win.width > 0 && win.height > 0
  {
    if Inside(win, y, x) then
      SampleInRange(y - win.y0, height, win.height);
      SampleInRange(x - win.x0, width, win.width);
      var sy, sx := Sample(y - win.y0, height, win.height), Sample(x - win.x0, width, win.width);
      Raster.PixelInRange(sy, height, sx, width);
      gray[sy * width + sx]
    else 255
  }

  /** The canvas, dot by dot: the sampled source inside the window, white outside. */
  function Fitted(gray: seq<byte>, width: int, height: int, canvasWidth: int, canvasHeight: int): (out: seq<byte>)
    requires FitLegal(gray, width, height, canvasWidth, canvasHeight)
    ensures |out| == canvasWidth * canvasHeight
  {
    WindowIsLetterbox(width, height, canvasWidth, canvasHeight);
    ProductSign(canvasWidth, canvasHeight);
    var win := WindowOf(width, height, canvasWidth, canvasHeight);
    seq(canvasWidth * canvasHeight,
        k requires 0 <= k < canvasWidth * canvasHeight => FitPixel(gray, width, height, win, k / canvasWidth, k % canvasWidth))
  }

  lemma DotIndex(y: int, x: int, canvasWidth: int, canvasHeight: int)
    requires 0 <= x < canvasWidth && 0 <= y < canvasHeight
    ensures 0 <= y * canvasWidth + x < canvasWidth * canvasHeight
    ensures (y * canvasWidth + x) / canvasWidth == y && (y * canvasWidth + x) % canvasWidth == x
  {
    Raster.PixelInRange(y, canvasHeight, x, canvasWidth);
    DivUnique(y * canvasWidth + x, canvasWidth, y, x);
  }

  /** With nothing to scale, the window is the whole canvas and every sample is its own dot, so the
      copying shortcut agrees with the general rule. */
  lemma SameSizeIsCopy(gray: seq<byte>, width: int, height: int)
    requires FitLegal(gray, width, height, width, height)
    ensures Fitted(gray, width, height, width, height) == gray
  {
    SameSizeWindow(width, height);
    hide WindowOf;
    forall k | 0 <= k < |gray|
      ensures gray[k] == FitPixel(gray, width, height, Window(0, 0, width, height), k / width, k % width)
    {
      SameSizeDot(gray, width, height, k);
    }
  }

  lemma SameSizeWindow(width: int, height: int)
    requires width > 0 && height > 0
    ensures WindowOf(width, height, width, height) == Window(0, 0, width, height)
  {
    OneOverItself(width);
    OneOverItself(height);
    ScaledByOne(width);
    ScaledByOne(height);
    assert Scale(width, height, width, height) == 1.0 by {
      hide Scaled;
    }
  }

  lemma OneOverItself(n: int)
    requires n > 0
    ensures n as real / n as real == 1.0
  {
  }

  lemma ScaledByOne(n: int)
    requires n > 0
    ensures Scaled(n, 1.0) == n
  {
    assert n as real * 1.0 == n as real;
    assert (n as real + 0.5).Floor == n;
  }

  lemma SameSizeDot(gray: seq<byte>, width: int, height: int, k: int)
    requires width > 0 && height > 0 && |gray| == width * height && 0 <= k < |gray|
    ensures gray[k] == FitPixel(gray, width, height, Window(0, 0, width, height), k / width, k % width)
  {
    var y, x := k / width, k % width;
    assert k == width * y + x;
    QuotientRange(k, width, height);
    SelfSample(y, height);
    SelfSample(x, width);
    Commute(y, width);
  }

  lemma SelfSample(i: int, n: int)
    requires n > 0
    ensures Sample(i, n, n) == i
  {
    Commute(i, n);
    DivUnique(i * n, n, i, 0);
  }

  method FitGrayCanvas(gray: seq<byte>, width: int, height: int, canvasWidth: int, canvasHeight: int)
    returns (r: Result<seq<byte>, FitError>)
    ensures r.Ok? <==>
              width > 0 && height > 0 && 0 < canvasWidth <= 1664 && 0 < canvasHeight <= 2842 && |gray| == width * height
    ensures r.Ok? ==> r.value == Fitted(gray, width, height, canvasWidth, canvasHeight)
  {
    if width <= 0 || height <= 0 || canvasWidth <= 0 || canvasWidth > 1664 || canvasHeight <= 0 || canvasHeight > 2842
       || |gray| != width * height {
      return Err(FitDimensions);
    }
    if width == canvasWidth && height == canvasHeight {
      SameSizeIsCopy(gray, width, height);
      return Ok(gray);
    }
    var win := FitWindow(width, height, canvasWidth, canvasHeight);
    hide WindowOf, FitPixel;
    WindowIsLetterbox(width, height, canvasWidth, canvasHeight);
    var out := Sampled(gray, width, height, canvasWidth, canvasHeight, win);
    return Ok(out);
  }

  /** The scale and rounding arithmetic. */
  method FitWindow(width: int, height: int, canvasWidth: int, canvasHeight: int) returns (win: Window)
    requires width > 0 && height > 0
    ensures win == WindowOf(width, height, canvasWidth, canvasHeight)
  {
    hide Scaled;
    var scaleX := canvasWidth as real / width as real;
    var scaleY := canvasHeight as real / height as real;
    var scale := scaleX;
    if scaleY < scale {
      scale := scaleY;
    }
    assert scale == Scale(width, height, canvasWidth, canvasHeight);
    var dstWidth := Rounded(width, scale);
    var dstHeight := Rounded(height, scale);
    win := Window((canvasWidth - dstWidth) / 2, (canvasHeight - dstHeight) / 2, dstWidth, dstHeight);
  }

  method Rounded(n: int, scale: real) returns (d: int)
    ensures d == Scaled(n, scale)
  {
    d := (n as real * scale + 0.5).Floor;
    if d < 1 {
      d := 1;
    }
  }

  /** Dots written once the first y window rows and x dots of the next are done. */
  predicate Written(win: Window, y: int, x: int, dotY: int, dotX: int)
  {
    Inside(win, dotY, dotX) && (dotY < win.y0 + y || (dotY == win.y0 + y && dotX < win.x0 + x))
  }

  /** The sampling loops over a white canvas. */
  method Sampled(gray: seq<byte>, width: int, height: int, canvasWidth: int, canvasHeight: int, win: Window)
    returns (canvas: seq<byte>)
    requires width > 0 && height > 0 && |gray| == width * height
    requires canvasWidth > 0 && canvasHeight > 0 && WindowFits(win, canvasWidth, canvasHeight)
    ensures |canvas| == canvasWidth * canvasHeight
    ensures forall k :: 0 <= k < |canvas| ==>
              canvas[k] == FitPixel(gray, width, height, win, k / canvasWidth, k % canvasWidth)
  {
    hide FitPixel, Sample;
    var out := new byte[canvasWidth * canvasHeight](i => 255);
    var y := 0;
    while y < win.height
      invariant 0 <= y <= win.height
      invariant forall k :: 0 <= k < out.Length ==>
                  out[k] == if Written(win, y, 0, k / canvasWidth, k % canvasWidth)
                            then FitPixel(gray, width, height, win, k / canvasWidth, k % canvasWidth) else 255
    {
      var sy := y * height / win.height;
      var x := 0;
      while x < win.width
        invariant 0 <= x <= win.width
        invariant forall k :: 0 <= k < out.Length ==>
                    out[k] == if Written(win, y, x, k / canvasWidth, k % canvasWidth)
                              then FitPixel(gray, width, height, win, k / canvasWidth, k % canvasWidth) else 255
      {
        var sx := x * width / win.width;
        OneDot(gray, width, height, canvasWidth, canvasHeight, win, y, x);
        out[(win.y0 + y) * canvasWidth + win.x0 + x] := gray[sy * width + sx];
        x := x + 1;
      }
      y := y + 1;
    }
    canvas := out[..];
    OutsideIsWhite(gray, width, height, win);
  }

  /** Where every dot of a fitted canvas comes from: outside the window it is white; inside, line i of
      n shown lines shows source line i * source / n, and columns likewise. */
  lemma FittedDots(gray: seq<byte>, width: int, height: int, canvasWidth: int, canvasHeight: int, y: int, x: int)
    requires FitLegal(gray, width, height, canvasWidth, canvasHeight)
    requires 0 <= y < canvasHeight && 0 <= x < canvasWidth
    ensures var out := Fitted(gray, width, height, canvasWidth, canvasHeight);
            var win := WindowOf(width, height, canvasWidth, canvasHeight);
            var dy, dx := y - win.y0, x - win.x0;
            && win.width > 0 && win.height > 0 && 0 <= y * canvasWidth + x < |out|
            && (0 <= dy < win.height && 0 <= dx < win.width ==>
                  var from := dy * height / win.height * width + dx * width / win.width;
                  0 <= from < |gray| && out[y * canvasWidth + x] == gray[from])
            && (!(0 <= dy < win.height && 0 <= dx < win.width) ==> out[y * canvasWidth + x] == 255)
  {
    hide WindowOf;
    var win := WindowOf(width, height, canvasWidth, canvasHeight);
    WindowIsLetterbox(width, height, canvasWidth, canvasHeight);
    DotIndex(y, x, canvasWidth, canvasHeight);
    FittedAt(gray, width, height, canvasWidth, canvasHeight, y * canvasWidth + x);
    FitPixelIs(gray, width, height, win, y, x);
  }

  lemma FittedAt(gray: seq<byte>, width: int, height: int, canvasWidth: int, canvasHeight: int, k: int)
    requires FitLegal(gray, width, height, canvasWidth, canvasHeight) && 0 <= k < canvasWidth * canvasHeight
    ensures var win := WindowOf(width, height, canvasWidth, canvasHeight);
            && win.width > 0 && win.height > 0
            && Fitted(gray, width, height, canvasWidth, canvasHeight)[k]
               == FitPixel(gray, width, height, win, k / canvasWidth, k % canvasWidth)
  {
    hide WindowOf, FitPixel;
    WindowIsLetterbox(width, height, canvasWidth, canvasHeight);
  }

  lemma FitPixelIs(gray: seq<byte>, width: int, height: int, win: Window, y: int, x: int)
    requires width > 0 && height > 0 && |gray| == width * height && win.width > 0 && win.height > 0
    ensures var dy, dx := y - win.y0, x - win.x0;
            && (0 <= dy < win.height && 0 <= dx < win.width ==>
                  var from := dy * height / win.height * width + dx * width / win.width;
                  0 <= from < |gray| && FitPixel(gray, width, height, win, y, x) == gray[from])
            && (!(0 <= dy < win.height && 0 <= dx < win.width) ==> FitPixel(gray, width, height, win, y, x) == 255)
  {
    var dy, dx := y - win.y0, x - win.x0;
    if 0 <= dy < win.height && 0 <= dx < win.width {
      SampleInRange(dy, height, win.height);
      SampleInRange(dx, width, win.width);
      Unfolded(dy, height, win.height);
      Unfolded(dx, width, win.width);
      Raster.PixelInRange(Sample(dy, height, win.height), height, Sample(dx, width, win.width), width);
    }
  }

  lemma OutsideIsWhite(gray: seq<byte>, width: int, height: int, win: Window)
    requires width > 0 && height > 0 && |gray| == width * height && win.width > 0 && win.height > 0
    ensures forall y, x :: !Written(win, win.height, 0, y, x) ==> FitPixel(gray, width, height, win, y, x) == 255
  {
  }

  /** Where the inner loop writes, and what. */
  lemma OneDot(gray: seq<byte>, width: int, height: int, canvasWidth: int, canvasHeight: int, win: Window, y: int, x: int)
    requires width > 0 && height > 0 && |gray| == width * height
    requires canvasWidth > 0 && canvasHeight > 0 && WindowFits(win, canvasWidth, canvasHeight)
    requires 0 <= y < win.height && 0 <= x < win.width
    ensures var sy, sx := y * height / win.height, x * width / win.width;
            var at := (win.y0 + y) * canvasWidth + win.x0 + x;
            && 0 <= sy * width + sx < |gray| && 0 <= at < canvasWidth * canvasHeight
            && at / canvasWidth == win.y0 + y && at % canvasWidth == win.x0 + x
            && gray[sy * width + sx] == FitPixel(gray, width, height, win, win.y0 + y, win.x0 + x)
            && (forall k :: 0 <= k < canvasWidth * canvasHeight && k / canvasWidth == win.y0 + y && k % canvasWidth == win.x0 + x ==> k == at)
  {
    hide Sample;
    Unfolded(y, height, win.height);
    Unfolded(x, width, win.width);
    SampleInRange(y, height, win.height);
    SampleInRange(x, width, win.width);
    Raster.PixelInRange(Sample(y, height, win.height), height, Sample(x, width, win.width), width);
    DotIndex(win.y0 + y, win.x0 + x, canvasWidth, canvasHeight);
    forall k | 0 <= k < canvasWidth * canvasHeight && k / canvasWidth == win.y0 + y && k % canvasWidth == win.x0 + x
      ensures k == (win.y0 + y) * canvasWidth + win.x0 + x
    {
      Recompose(k, canvasWidth);
    }
  }

  lemma Unfolded(i: int, source: int, shown: int)
    requires shown > 0
    ensures Sample(i, source, shown) == i * source / shown
  {
  }

  lemma Recompose(k: int, d: int)
    requires d > 0
    ensures k == (k / d) * d + k % d
  {
  }

  // ----- centred padding

  predicate PadLegal(gray: seq<byte>, width: int, height: int, outputWidth: int)
  {
    width > 0 && height > 0 && outputWidth >= width && |gray| == width * height
  }

  /** Pixel x of row y of a raster. */
  function Dot(gray: seq<byte>, width: int, y: int, x: int): byte
  {
    var k := y * width + x;
    if 0 <= k < |gray| then gray[k] else 255
  }

  function PadPixel(gray: seq<byte>, width: int, x0: int, y: int, x: int): byte
  {
    if x0 <= x < x0 + width then Dot(gray, width, y, x - x0) else 255
  }

  /** The page in the middle of wider rows, white on both sides. */
  function Padded(gray: seq<byte>, width: int, height: int, outputWidth: int): (out: seq<byte>)
    requires PadLegal(gray, width, height, outputWidth)
    ensures |out| == outputWidth * height
  {
    ProductSign(outputWidth, height);
    seq(outputWidth * height,
        k requires 0 <= k < outputWidth * height =>
          PadPixel(gray, width, (outputWidth - width) / 2, k / outputWidth, k % outputWidth))
  }

  method CenterPadGray(gray: seq<byte>, width: int, height: int, outputWidth: int) returns (r: Result<seq<byte>, FitError>)
    ensures r.Ok? <==> width > 0 && height > 0 && outputWidth >= width && |gray| == width * height
    ensures r.Ok? ==> r.value == Padded(gray, width, height, outputWidth)
  {
    if width <= 0 || height <= 0 || outputWidth < width || |gray| != width * height {
      return Err(PaddingDimensions);
    }
    hide PadPixel;
    var out := new byte[outputWidth * height](i => 255);
    var x0 := (outputWidth - width) / 2;
    var y := 0;
    while y < height
      invariant 0 <= y <= height
      invariant forall k :: 0 <= k < out.Length ==>
                  out[k] == if Copied(y, 0, x0, k / outputWidth, k % outputWidth)
                            then PadPixel(gray, width, x0, k / outputWidth, k % outputWidth) else 255
    {
      var i := 0;
      while i < width
        invariant 0 <= i <= width
        invariant forall k :: 0 <= k < out.Length ==>
                    out[k] == if Copied(y, i, x0, k / outputWidth, k % outputWidth)
                              then PadPixel(gray, width, x0, k / outputWidth, k % outputWidth) else 255
      {
        CopyDot(gray, width, height, outputWidth, y, i);
        out[y * outputWidth + x0 + i] := gray[y * width + i];
        i := i + 1;
      }
      Margins(gray, width, x0, y);
      Margins(gray, width, x0, y + 1);
      y := y + 1;
    }
    AllRows(out[..], gray, width, height, outputWidth, x0);
    r := Ok(out[..]);
  }

  /** Dots settled once y rows and i dots of the next are copied. */
  predicate Copied(y: int, i: int, x0: int, dotY: int, dotX: int)
  {
    dotY < y || (dotY == y && dotX < x0 + i)
  }

  lemma Margins(gray: seq<byte>, width: int, x0: int, y: int)
    ensures forall x :: x < x0 || x >= x0 + width ==> PadPixel(gray, width, x0, y, x) == 255
  {
  }

  lemma AllRows(out: seq<byte>, gray: seq<byte>, width: int, height: int, outputWidth: int, x0: int)
    requires outputWidth > 0 && |out| == outputWidth * height
    requires forall k :: 0 <= k < |out| ==>
               out[k] == if Copied(height, 0, x0, k / outputWidth, k % outputWidth)
                         then PadPixel(gray, width, x0, k / outputWidth, k % outputWidth) else 255
    ensures forall k :: 0 <= k < |out| ==> out[k] == PadPixel(gray, width, x0, k / outputWidth, k % outputWidth)
  {
    hide PadPixel;
    forall k | 0 <= k < |out|
      ensures out[k] == PadPixel(gray, width, x0, k / outputWidth, k % outputWidth)
    {
      QuotientRange(k, outputWidth, height);
    }
  }

  lemma CopyDot(gray: seq<byte>, width: int, height: int, outputWidth: int, y: int, i: int)
    requires PadLegal(gray, width, height, outputWidth) && 0 <= y < height && 0 <= i < width
    ensures var x0 := (outputWidth - width) / 2; var at := y * outputWidth + x0 + i;
            && 0 <= y * width + i < |gray| && 0 <= at < outputWidth * height
            && at / outputWidth == y && at % outputWidth == x0 + i
            && gray[y * width + i] == PadPixel(gray, width, x0, y, x0 + i)
            && (forall k :: 0 <= k < outputWidth * height && k / outputWidth == y && k % outputWidth == x0 + i ==> k == at)
  {
    var x0 := (outputWidth - width) / 2;
    Raster.PixelInRange(y, height, i, width);
    DotIndex(y, x0 + i, outputWidth, height);
    forall k | 0 <= k < outputWidth * height && k / outputWidth == y && k % outputWidth == x0 + i
      ensures k == y * outputWidth + x0 + i
    {
      Recompose(k, outputWidth);
    }
  }

  /** Where every dot of a padded page comes from: the page stands in the middle of white rows, and of
      two unequal margins the larger is on the right. */
  lemma PaddedDots(gray: seq<byte>, width: int, height: int, outputWidth: int, y: int, x: int)
    requires width > 0 && height > 0 && outputWidth >= width && |gray| == width * height
    requires 0 <= y < height && 0 <= x < outputWidth
    ensures var out, left := Padded(gray, width, height, outputWidth), (outputWidth - width) / 2;
            var right := outputWidth - width - left;
            && |out| == outputWidth * height && 0 <= y * outputWidth + x < |out|
            && (right == left || right == left + 1)
            && (left <= x < left + width ==>
                  0 <= y * width + x - left < |gray| && out[y * outputWidth + x] == gray[y * width + x - left])
            && (x < left || x >= left + width ==> out[y * outputWidth + x] == 255)
  {
    var left := (outputWidth - width) / 2;
    DotIndex(y, x, outputWidth, height);
    if left <= x < left + width {
      Raster.PixelInRange(y, height, x - left, width);
    }
  }

  /** Padding to the page's own width changes nothing. */
  lemma PadToSameWidth(gray: seq<byte>, width: int, height: int)
    requires PadLegal(gray, width, height, width)
    ensures Padded(gray, width, height, width) == gray
  {
    forall k | 0 <= k < |gray|
      ensures Padded(gray, width, height, width)[k] == gray[k]
    {
      QuotientRange(k, width, height);
      Recompose(k, width);
    }
  }

  // ----- logical canvas on the fixed head

  predicate HeadLegal(gray: seq<byte>, width: int, height: int, logicalWidth: int, logicalHeight: int, headWidth: int)
  {
    && 0 < logicalWidth <= headWidth <= 1664 && 0 < logicalHeight <= 2233
    && FitLegal(gray, width, height, logicalWidth, logicalHeight)
  }

  method FitGrayHeadCanvas(gray: seq<byte>, width: int, height: int, logicalWidth: int, logicalHeight: int, headWidth: int)
    returns (r: Result<seq<byte>, FitError>)
    ensures r.Ok? <==>
              && 0 < logicalWidth <= headWidth <= 1664 && 0 < logicalHeight <= 2233
              && width > 0 && height > 0 && |gray| == width * height
    ensures r.Ok? ==>
              r.value == Padded(Fitted(gray, width, height, logicalWidth, logicalHeight), logicalWidth, logicalHeight, headWidth)
  {
    if logicalWidth <= 0 || logicalWidth > headWidth || headWidth > 1664 || logicalHeight <= 0 || logicalHeight > 2233 {
      return Err(HeadDimensions);
    }
    var logical := FitGrayCanvas(gray, width, height, logicalWidth, logicalHeight);
    if logical.Err? {
      return Err(logical.error);
    }
    r := CenterPadGray(logical.value, logicalWidth, logicalHeight, headWidth);
  }
}
