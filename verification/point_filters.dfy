/**
 * The five per-pixel filters of the native engine: grayscale, invert, sepia,
 * brightness and contrast. Each walks the first `width * height` pixels of
 * its input, unpacks the channels, computes new colour channels, keeps the
 * alpha byte and repacks into a fresh buffer of the same length; the input
 * is only read.
 *
 * Sepia, brightness and contrast compute in floating point. The model keeps
 * every integer step of those filters (the casts, the clamps, the parameter
 * clamp) and takes the floating-point expression itself as a parameter, the
 * "evaluator". `Exact*` functions give the evaluators with exact real
 * arithmetic and C++ truncation toward zero, which the reference lemmas use.
 */
module PointFilters {
  import opened Pixels

  /** `result[i] = f(pixelArray[i])` for every `i` below `width * height`:
      the loop shared by all five filters. */
  function MapPixels(pixels: seq<Pixel>, width: int, height: int, f: Pixel -> Pixel): (result: seq<Pixel>)
    requires HoldsImage(pixels, width, height)
    ensures |result| == width * height
    ensures forall i :: 0 <= i < |result| ==> result[i] == f(pixels[i])
  {
    seq(width * height, i requires 0 <= i < width * height => f(pixels[i]))
  }

  /** C++ conversion of a floating-point value to `int`: truncation toward
      zero (for values that fit in an `int`). */
  function Trunc(x: real): (n: int)
    ensures 0.0 <= x ==> 0 <= n
    ensures 0.0 <= x ==> n as real <= x < n as real + 1.0
    ensures x < 0.0 ==> x <= n as real < x + 1.0
  {
    if 0.0 <= x then x.Floor else -((-x).Floor)
  }

  // ---------------------------------------------------------------- grayscale

  /** One pixel of `convertToGrayscale`: the integer mean of red, green and
      blue replaces all three. */
  function GrayPixel(p: Pixel): Pixel
  {
    var c := Unpack(p);
    var gray := (c.r + c.g + c.b) / 3;
    Pack(Argb(c.a, gray, gray, gray))
  }

  function Grayscale(pixels: seq<Pixel>, width: int, height: int): (result: seq<Pixel>)
    requires HoldsImage(pixels, width, height)
    ensures |result| == width * height
    ensures forall i :: 0 <= i < |result| ==>
              var c, d := Unpack(pixels[i]), Unpack(result[i]);
              && d.a == c.a
              && d.r == d.g == d.b
              && 3 * d.r <= c.r + c.g + c.b < 3 * d.r + 3
  {
    var result := MapPixels(pixels, width, height, GrayPixel);
    forall i | 0 <= i < |result|
      ensures var c, d := Unpack(pixels[i]), Unpack(result[i]);
              d.a == c.a && d.r == d.g == d.b && 3 * d.r <= c.r + c.g + c.b < 3 * d.r + 3
    {
      var c := Unpack(pixels[i]);
      var gray := (c.r + c.g + c.b) / 3;
      UnpackPack(Argb(c.a, gray, gray, gray));
    }
    result
  }

  /** A pixel that is already gray (r == g == b) is left unchanged. */
  lemma GrayPixelFixesGray(p: Pixel)
    requires Red(p) == Green(p) == Blue(p)
    ensures GrayPixel(p) == p
  {
    var c := Unpack(p);
    assert (c.r + c.g + c.b) / 3 == c.r;
    PackUnpack(p);
  }

  /** Grayscale is idempotent: a second application changes nothing. */
  lemma GrayscaleIdempotent(pixels: seq<Pixel>, width: int, height: int)
    requires HoldsImage(pixels, width, height)
    ensures Grayscale(Grayscale(pixels, width, height), width, height) == Grayscale(pixels, width, height)
  {
    var once := Grayscale(pixels, width, height);
    var twice := Grayscale(once, width, height);
    forall i | 0 <= i < |once|
      ensures twice[i] == once[i]
    {
      GrayPixelFixesGray(once[i]);
    }
  }

  /** `result[i]` depends on `pixels[i]` alone: equal input pixels give equal
      output pixels, whatever the rest of either buffer holds. */
  lemma GrayscalePointwise(p: seq<Pixel>, pw: int, ph: int, q: seq<Pixel>, qw: int, qh: int, i: int, j: int)
    requires HoldsImage(p, pw, ph) && HoldsImage(q, qw, qh)
    requires 0 <= i < pw * ph && 0 <= j < qw * qh
    requires p[i] == q[j]
    ensures Grayscale(p, pw, ph)[i] == Grayscale(q, qw, qh)[j]
  {
  }

  // ------------------------------------------------------------------- invert

  /** One pixel of `invertColors`: every colour channel `c` becomes `255 - c`. */
  function InvertPixel(p: Pixel): Pixel
  {
    var c := Unpack(p);
    Pack(Argb(c.a, 255 - c.r, 255 - c.g, 255 - c.b))
  }

  /** The channels `InvertPixel` produces. */
  lemma InvertPixelChannels(p: Pixel)
    ensures var c := Unpack(p);
            Unpack(InvertPixel(p)) == Argb(c.a, 255 - c.r, 255 - c.g, 255 - c.b)
  {
    var c := Unpack(p);
    UnpackPack(Argb(c.a, 255 - c.r, 255 - c.g, 255 - c.b));
  }

  function Invert(pixels: seq<Pixel>, width: int, height: int): (result: seq<Pixel>)
    requires HoldsImage(pixels, width, height)
    ensures |result| == width * height
    ensures forall i :: 0 <= i < |result| ==>
              var c, d := Unpack(pixels[i]), Unpack(result[i]);
              d.a == c.a && d.r + c.r == 255 && d.g + c.g == 255 && d.b + c.b == 255
  {
    var result := MapPixels(pixels, width, height, InvertPixel);
    forall i | 0 <= i < |result|
      ensures var c, d := Unpack(pixels[i]), Unpack(result[i]);
              d.a == c.a && d.r + c.r == 255 && d.g + c.g == 255 && d.b + c.b == 255
    {
      InvertPixelChannels(pixels[i]);
    }
    result
  }

  lemma InvertPixelInvolution(p: Pixel)
    ensures InvertPixel(InvertPixel(p)) == p
  {
    InvertPixelChannels(p);
    InvertPixelChannels(InvertPixel(p));
    PixelExtensionality(InvertPixel(InvertPixel(p)), p);
  }

  /** Inverting twice gives back exactly the pixels the filter read. */
  lemma InvertInvolution(pixels: seq<Pixel>, width: int, height: int)
    requires HoldsImage(pixels, width, height)
    ensures Invert(Invert(pixels, width, height), width, height) == pixels[..width * height]
  {
    var once := Invert(pixels, width, height);
    var twice := Invert(once, width, height);
    forall i | 0 <= i < |twice|
      ensures twice[i] == pixels[i]
    {
      InvertPixelInvolution(pixels[i]);
    }
  }

  /** `result[i]` depends on `pixels[i]` alone. */
  lemma InvertPointwise(p: seq<Pixel>, pw: int, ph: int, q: seq<Pixel>, qw: int, qh: int, i: int, j: int)
    requires HoldsImage(p, pw, ph) && HoldsImage(q, qw, qh)
    requires 0 <= i < pw * ph && 0 <= j < qw * qh
    requires p[i] == q[j]
    ensures Invert(p, pw, ph)[i] == Invert(q, qw, qh)[j]
  {
  }

  /** The pixel (a=255, r=10, g=200, b=0) inverts to (255, 245, 55, 255). */
  lemma InvertExample()
    ensures InvertPixel(0xFF0A_C800) == 0xFFF5_37FF
  {
    var c := Unpack(0xFF0A_C800);
    assert c == Argb(255, 10, 200, 0);
    assert Pack(Argb(255, 245, 55, 255)) == 0xFFF5_37FF;
  }

  // -------------------------------------------------------------------- sepia

  /** The three truncated sepia dot products `(int)(k1*red + k2*green + k3*blue)`.
      They are never negative, since every coefficient and channel is not. */
  datatype Tone = Tone(tr: nat, tg: nat, tb: nat)

  /** The sepia matrix with exact real arithmetic. */
  function ExactSepiaTone(c: Argb): Tone
  {
    Tone(Trunc(0.393 * c.r as real + 0.769 * c.g as real + 0.189 * c.b as real),
         Trunc(0.349 * c.r as real + 0.686 * c.g as real + 0.168 * c.b as real),
         Trunc(0.272 * c.r as real + 0.534 * c.g as real + 0.131 * c.b as real))
  }

  function Min255(x: int): (c: int)
    ensures c <= 255 && c <= x && (c == x || c == 255)
  {
    if x < 255 then x else 255
  }

  /** One pixel of `sepia`: each tone value is capped at 255 (there is no
      lower clamp; the tone is never negative). */
  function SepiaPixel(p: Pixel, tone: Argb -> Tone): Pixel
  {
    var c := Unpack(p);
    var t := tone(c);
    Pack(Argb(c.a, Min255(t.tr), Min255(t.tg), Min255(t.tb)))
  }

  function Sepia(pixels: seq<Pixel>, width: int, height: int, tone: Argb -> Tone): (result: seq<Pixel>)
    requires HoldsImage(pixels, width, height)
    ensures |result| == width * height
    ensures forall i :: 0 <= i < |result| ==>
              var c, d := Unpack(pixels[i]), Unpack(result[i]);
              var t := tone(c);
              && d.a == c.a
              && (d.r == t.tr || (d.r == 255 < t.tr))
              && (d.g == t.tg || (d.g == 255 < t.tg))
              && (d.b == t.tb || (d.b == 255 < t.tb))
  {
    var result := MapPixels(pixels, width, height, p => SepiaPixel(p, tone));
    forall i | 0 <= i < |result|
      ensures var c, d := Unpack(pixels[i]), Unpack(result[i]);
              var t := tone(c);
              && d.a == c.a
              && (d.r == t.tr || (d.r == 255 < t.tr))
              && (d.g == t.tg || (d.g == 255 < t.tg))
              && (d.b == t.tb || (d.b == 255 < t.tb))
    {
      var c := Unpack(pixels[i]);
      var t := tone(c);
      UnpackPack(Argb(c.a, Min255(t.tr), Min255(t.tg), Min255(t.tb)));
    }
    result
  }

  /** With exact arithmetic, opaque white becomes (255, 255, 255, 238): the
      red and green sums saturate, the blue sum is 238.935. */
  lemma SepiaOfWhite()
    ensures SepiaPixel(0xFFFF_FFFF, ExactSepiaTone) == 0xFFFF_FFEE
  {
    var c := Unpack(0xFFFF_FFFF);
    assert c == Argb(255, 255, 255, 255);
    var t := ExactSepiaTone(c);
    assert t.tb == 238 by {
      assert 0.272 * 255.0 + 0.534 * 255.0 + 0.131 * 255.0 == 238.935;
    }
    assert t.tr >= 255 by {
      assert 0.393 * 255.0 + 0.769 * 255.0 + 0.189 * 255.0 == 344.505;
    }
    assert t.tg >= 255 by {
      assert 0.349 * 255.0 + 0.686 * 255.0 + 0.168 * 255.0 == 306.765;
    }
    assert Pack(Argb(255, 255, 255, 238)) == 0xFFFF_FFEE;
  }

  lemma TruncMonotonic(x: real, y: real)
    requires 0.0 <= x <= y
    ensures Trunc(x) <= Trunc(y)
  {
  }

  /** Each red coefficient of the sepia matrix is at least the matching
      green one, which is at least the matching blue one. */
  lemma ExactSepiaTonesOrdered(c: Argb)
    ensures var t := ExactSepiaTone(c); t.tr >= t.tg >= t.tb
  {
    var r, g, b := c.r as real, c.g as real, c.b as real;
    TruncMonotonic(0.349 * r + 0.686 * g + 0.168 * b, 0.393 * r + 0.769 * g + 0.189 * b);
    TruncMonotonic(0.272 * r + 0.534 * g + 0.131 * b, 0.349 * r + 0.686 * g + 0.168 * b);
  }

  /** With exact arithmetic, every sepia pixel is warm: red at least green,
      green at least blue. */
  lemma ExactSepiaWarm(pixels: seq<Pixel>, width: int, height: int, i: int)
    requires HoldsImage(pixels, width, height)
    requires 0 <= i < width * height
    ensures var d := Unpack(Sepia(pixels, width, height, ExactSepiaTone)[i]);
            d.r >= d.g >= d.b
  {
    ExactSepiaTonesOrdered(Unpack(pixels[i]));
  }

  // --------------------------------------------------------------- brightness

  /** `(int)(channel * (brightnessValue / 100.0f))` with exact arithmetic. */
  function ExactScale(channel: Channel, value: int): int
  {
    Trunc(channel as real * (value as real / 100.0))
  }

  /** One pixel of `brightness`: each colour channel is scaled by
      `value / 100` and capped at 255. Nothing stops a negative scaled value
      from reaching the shifts, so the pixel is packed from raw `int`s. */
  function BrightnessPixel(p: Pixel, value: int, scale: (Channel, int) -> int): Pixel
  {
    var c := Unpack(p);
    PackWord(c.a, Min255(scale(c.r, value)), Min255(scale(c.g, value)), Min255(scale(c.b, value)))
  }

  /** The scaled channels of a pixel are all non-negative. */
  predicate ScalesNonNegative(c: Argb, value: int, scale: (Channel, int) -> int)
  {
    0 <= scale(c.r, value) && 0 <= scale(c.g, value) && 0 <= scale(c.b, value)
  }

  function Brightness(pixels: seq<Pixel>, width: int, height: int, value: int, scale: (Channel, int) -> int)
    : (result: seq<Pixel>)
    requires HoldsImage(pixels, width, height)
    ensures |result| == width * height
    ensures forall i :: 0 <= i < |result| && ScalesNonNegative(Unpack(pixels[i]), value, scale) ==>
              var c, d := Unpack(pixels[i]), Unpack(result[i]);
              && d.a == c.a
              && (d.r == scale(c.r, value) || (d.r == 255 < scale(c.r, value)))
              && (d.g == scale(c.g, value) || (d.g == 255 < scale(c.g, value)))
              && (d.b == scale(c.b, value) || (d.b == 255 < scale(c.b, value)))
  {
    var result := MapPixels(pixels, width, height, p => BrightnessPixel(p, value, scale));
    forall i | 0 <= i < |result| && ScalesNonNegative(Unpack(pixels[i]), value, scale)
      ensures var c, d := Unpack(pixels[i]), Unpack(result[i]);
              && d.a == c.a
              && (d.r == scale(c.r, value) || (d.r == 255 < scale(c.r, value)))
              && (d.g == scale(c.g, value) || (d.g == 255 < scale(c.g, value)))
              && (d.b == scale(c.b, value) || (d.b == 255 < scale(c.b, value)))
    {
      var c := Unpack(pixels[i]);
      var n := Argb(c.a, Min255(scale(c.r, value)), Min255(scale(c.g, value)), Min255(scale(c.b, value)));
      PackWordOfChannels(n);
      UnpackPack(n);
    }
    result
  }

  /** With exact arithmetic, every value of the slider range 0..200 keeps
      alpha: the scaled channels are never negative. */
  lemma ExactBrightnessKeepsAlpha(pixels: seq<Pixel>, width: int, height: int, value: int, i: int)
    requires HoldsImage(pixels, width, height)
    requires 0 <= value && 0 <= i < width * height
    ensures Alpha(Brightness(pixels, width, height, value, ExactScale)[i]) == Alpha(pixels[i])
  {
    var c := Unpack(pixels[i]);
    ExactScaleNonNegative(c.r, value);
    ExactScaleNonNegative(c.g, value);
    ExactScaleNonNegative(c.b, value);
  }

  lemma ExactScaleNonNegative(channel: Channel, value: int)
    requires 0 <= value
    ensures 0 <= ExactScale(channel, value)
  {
    var f := value as real / 100.0;
    assert 0.0 <= f;
    assert 0.0 <= channel as real * f;
  }

  /** With exact arithmetic, the neutral slider position 100 is the identity. */
  lemma ExactBrightnessNeutral(pixels: seq<Pixel>, width: int, height: int)
    requires HoldsImage(pixels, width, height)
    ensures Brightness(pixels, width, height, 100, ExactScale) == pixels[..width * height]
  {
    var result := Brightness(pixels, width, height, 100, ExactScale);
    forall i | 0 <= i < |result|
      ensures result[i] == pixels[i]
    {
      var c := Unpack(pixels[i]);
      assert ExactScale(c.r, 100) == c.r && ExactScale(c.g, 100) == c.g && ExactScale(c.b, 100) == c.b;
      assert ScalesNonNegative(c, 100, ExactScale);
      PixelOfChannels(result[i], c);
      PackUnpack(pixels[i]);
    }
  }

  /** A negative value, which the slider never produces, lets a negative red
      channel spill its sign bits into alpha: a transparent pixel with red 1
      comes out fully opaque. */
  lemma NegativeBrightnessCorruptsAlpha()
    ensures Alpha(BrightnessPixel(0x0001_0000, -100, ExactScale)) == 255
  {
    var c := Unpack(0x0001_0000);
    assert c == Argb(0, 1, 0, 0);
    assert ExactScale(1, -100) == -1;
    assert ExactScale(0, -100) == 0;
    assert Word(-1) == 0xFFFF_FFFF;
    assert Word(0) == 0;
  }

  // ----------------------------------------------------------------- contrast

  /** `contrastValue` clamped into [-255, 255], as the filter does first. */
  function ClampContrast(value: int): (k: int)
    ensures -255 <= k <= 255
    ensures -255 <= value <= 255 ==> k == value
    ensures value < -255 ==> k == -255
    ensures 255 < value ==> k == 255
  {
    var k := if value < -255 then -255 else value;
    if k > 255 then 255 else k
  }

  /** `min(255, max(0, x))`. */
  function Saturate(x: int): (c: Channel)
    ensures 0 <= x <= 255 ==> c == x
    ensures x < 0 ==> c == 0
    ensures 255 < x ==> c == 255
  {
    if x < 0 then 0 else if x > 255 then 255 else x
  }

  /** `(259 * (k + 255)) / (255 * (259 - k))` with exact arithmetic; the
      denominator is at least 4 for a clamped `k`. */
  function ContrastFactor(k: int): real
    requires -255 <= k <= 255
  {
    (259.0 * (k + 255) as real) / (255.0 * (259 - k) as real)
  }

  /** `static_cast<int>(factor * (channel - 128) + 128)` with exact arithmetic. */
  function ExactStretch(k: int, channel: Channel): int
  {
    if -255 <= k <= 255 then Trunc(ContrastFactor(k) * (channel - 128) as real + 128.0) else channel
  }

  /** One pixel of `contrast`, for an already clamped parameter `k`. */
  function ContrastPixel(p: Pixel, k: int, stretch: (int, Channel) -> int): Pixel
  {
    var c := Unpack(p);
    Pack(Argb(c.a, Saturate(stretch(k, c.r)), Saturate(stretch(k, c.g)), Saturate(stretch(k, c.b))))
  }

  function Contrast(pixels: seq<Pixel>, width: int, height: int, value: int, stretch: (int, Channel) -> int)
    : (result: seq<Pixel>)
    requires HoldsImage(pixels, width, height)
    ensures |result| == width * height
    ensures forall i :: 0 <= i < |result| ==>
              var c, d := Unpack(pixels[i]), Unpack(result[i]);
              var k := ClampContrast(value);
              && d.a == c.a
              && d.r == Saturate(stretch(k, c.r))
              && d.g == Saturate(stretch(k, c.g))
              && d.b == Saturate(stretch(k, c.b))
  {
    var k := ClampContrast(value);
    var result := MapPixels(pixels, width, height, p => ContrastPixel(p, k, stretch));
    forall i | 0 <= i < |result|
      ensures var c, d := Unpack(pixels[i]), Unpack(result[i]);
              && d.a == c.a
              && d.r == Saturate(stretch(k, c.r))
              && d.g == Saturate(stretch(k, c.g))
              && d.b == Saturate(stretch(k, c.b))
    {
      var c := Unpack(pixels[i]);
      UnpackPack(Argb(c.a, Saturate(stretch(k, c.r)), Saturate(stretch(k, c.g)), Saturate(stretch(k, c.b))));
    }
    result
  }

  /** A parameter beyond either end of [-255, 255] acts as that end. */
  lemma ContrastParameterClamped(pixels: seq<Pixel>, width: int, height: int, value: int, stretch: (int, Channel) -> int)
    requires HoldsImage(pixels, width, height)
    ensures value <= -255 ==> Contrast(pixels, width, height, value, stretch) == Contrast(pixels, width, height, -255, stretch)
    ensures 255 <= value ==> Contrast(pixels, width, height, value, stretch) == Contrast(pixels, width, height, 255, stretch)
  {
  }

  /** The contrast factor grows with the parameter. */
  lemma ContrastFactorMonotonic(k1: int, k2: int)
    requires -255 <= k1 <= k2 <= 255
    ensures ContrastFactor(k1) <= ContrastFactor(k2)
  {
    var n1, d1 := 259.0 * (k1 + 255) as real, 255.0 * (259 - k1) as real;
    var n2, d2 := 259.0 * (k2 + 255) as real, 255.0 * (259 - k2) as real;
    assert n1 * d2 <= n2 * d1 by {
      assert n2 * d1 - n1 * d2 == 259.0 * 255.0 * 514.0 * (k2 - k1) as real;
    }
    DivideMonotonic(n1, d1, n2, d2);
  }

  lemma DivideMonotonic(n1: real, d1: real, n2: real, d2: real)
    requires 0.0 < d1 && 0.0 < d2 && n1 * d2 <= n2 * d1
    ensures n1 / d1 <= n2 / d2
  {
    var q1, q2 := n1 / d1, n2 / d2;
    assert n1 == q1 * d1 && n2 == q2 * d2;
    assert q1 * d1 * d2 <= q2 * d2 * d1;
  }

  /** With exact arithmetic, parameter 0 is the identity. */
  lemma ExactContrastNeutral(pixels: seq<Pixel>, width: int, height: int)
    requires HoldsImage(pixels, width, height)
    ensures Contrast(pixels, width, height, 0, ExactStretch) == pixels[..width * height]
  {
    assert ContrastFactor(0) == 1.0;
    var result := Contrast(pixels, width, height, 0, ExactStretch);
    forall i | 0 <= i < |result|
      ensures result[i] == pixels[i]
    {
      var c := Unpack(pixels[i]);
      PixelOfChannels(result[i], c);
      PackUnpack(pixels[i]);
    }
  }

  /** With exact arithmetic, the minimum parameter collapses every colour
      channel to the midpoint 128. */
  lemma ExactContrastMinimum(pixels: seq<Pixel>, width: int, height: int, value: int, i: int)
    requires HoldsImage(pixels, width, height)
    requires value <= -255 && 0 <= i < width * height
    ensures var d := Unpack(Contrast(pixels, width, height, value, ExactStretch)[i]);
            d.r == d.g == d.b == 128
  {
    var c := Unpack(pixels[i]);
    ExactStretchMinimum(c.r);
    ExactStretchMinimum(c.g);
    ExactStretchMinimum(c.b);
  }

  lemma ExactStretchMinimum(channel: Channel)
    ensures ExactStretch(-255, channel) == 128
  {
    assert ContrastFactor(-255) == 0.0;
  }

  /** With exact arithmetic, the maximum parameter separates every colour
      channel to 0 or 255, except the midpoint 128 itself. */
  lemma ExactContrastMaximum(channel: Channel)
    ensures var s := Saturate(ExactStretch(255, channel));
            (channel < 128 ==> s == 0) && (channel == 128 ==> s == 128) && (channel > 128 ==> s == 255)
  {
    assert ContrastFactor(255) == 129.5;
    var x := 129.5 * (channel - 128) as real + 128.0;
    if channel < 128 {
      assert x <= -1.5;
    } else if channel > 128 {
      assert x >= 257.5;
    }
  }
}
