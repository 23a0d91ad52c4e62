/**
 * The box blur of the native engine. The radius is clamped into [1, 25];
 * every output pixel keeps the alpha of the input pixel at the same index,
 * and each colour channel becomes the integer mean of that channel over the
 * (2r+1) x (2r+1) window around the pixel, where window coordinates outside
 * the image are clamped to the nearest edge pixel.
 *
 * `Blur` is the functional definition; `BlurPixels` follows the loop nest of
 * the C++ code and is proved to compute it.
 */
module Blur {
  import opened Pixels

  const MinRadius: int := 1
  const MaxRadius: int := 25

  /** `if (radius < 1) radius = 1; if (radius > 25) radius = 25;` */
  function ClampRadius(radius: int): (r: int)
    ensures MinRadius <= r <= MaxRadius
    ensures MinRadius <= radius <= MaxRadius ==> r == radius
    ensures radius < MinRadius ==> r == MinRadius
    ensures MaxRadius < radius ==> r == MaxRadius
  {
    var r := if radius < 1 then 1 else radius;
    if r > 25 then 25 else r
  }

  /** `std::min(hi, std::max(0, v))`: the index in [0, hi] nearest to `v`. */
  function ClampIndex(v: int, hi: nat): (i: nat)
    ensures i <= hi
    ensures 0 <= v <= hi ==> i == v
    ensures v < 0 ==> i == 0
    ensures hi < v ==> i == hi
  {
    var lo := if 0 < v then v else 0;
    if hi < lo then hi else lo
  }

  /** The three colour channels a window sums separately. */
  datatype Band = RedBand | GreenBand | BlueBand

  function Sample(p: Pixel, band: Band): Channel
  {
    match band
    case RedBand => Red(p)
    case GreenBand => Green(p)
    case BlueBand => Blue(p)
  }

  /** An image with at least one pixel, whose buffer holds `width * height`
      pixels or more. */
  predicate Image(src: seq<Pixel>, width: int, height: int)
  {
    HoldsImage(src, width, height) && 0 < width && 0 < height
  }

  // ------------------------------------------------ integer arithmetic helpers

  lemma MulLe(a: int, b: int, c: int)
    requires a <= b && 0 <= c
    ensures a * c <= b * c
  {
  }

  lemma MulLeCancel(a: int, b: int, d: int)
    requires 0 < d && a * d <= b * d
    ensures a <= b
  {
  }

  lemma MulLtCancel(a: int, b: int, d: int)
    requires 0 < d && a * d < b * d
    ensures a < b
  {
  }

  /** Quotient and remainder are the only pair with `n == q * d + r` and
      `0 <= r < d`. */
  lemma DivModUnique(n: int, d: int, q: int, r: int)
    requires 0 < d && 0 <= r < d && n == q * d + r
    ensures n / d == q && n % d == r
  {
    var q', r' := n / d, n % d;
    assert (q - q') * d == r' - r;
    MulLtCancel(q - q', 1, d);
    MulLtCancel(-1, q - q', d);
  }

  lemma DivideExactly(k: int, v: int)
    requires 0 < k
    ensures (k * v) / k == v
  {
    DivModUnique(k * v, k, v, 0);
  }

  lemma IndexInImage(width: int, height: int, x: int, y: int)
    requires 0 <= x < width && 0 <= y < height
    ensures 0 <= y * width + x < width * height
  {
    MulLe(y, height - 1, width);
  }

  /** Pixel (x, y) of a `width` x `height` image sits at index
      `y * width + x` of the row-major buffer, and nowhere else. */
  lemma IndexCoordinates(width: int, height: int, x: int, y: int)
    requires 0 <= x < width && 0 <= y < height
    ensures 0 <= y * width + x < width * height
    ensures (y * width + x) / width == y && (y * width + x) % width == x
  {
    IndexInImage(width, height, x, y);
    DivModUnique(y * width + x, width, y, x);
  }

  lemma Distribute(a: int, b: int, v: int)
    ensures (a + b) * v == a * v + b * v
  {
  }

  lemma RowMajor(width: int, height: int, i: int)
    requires 0 < width && 0 < height && 0 <= i < width * height
    ensures 0 <= i / width < height && 0 <= i % width < width
    ensures (i / width) * width + i % width == i
  {
    MulLtCancel(i / width, height, width);
  }

  /** The index `py * width + px` the tap at offset (kx, ky) from pixel
      (x, y) reads. Clamping both coordinates keeps it inside the image. */
  function SampleIndex(width: int, height: int, x: int, y: int, kx: int, ky: int): int
    requires 0 < width && 0 < height
  {
    var py := ClampIndex(y + ky, height - 1);
    var px := ClampIndex(x + kx, width - 1);
    py * width + px
  }

  /** Every sampled index lies in [0, width * height), wherever the window
      around a pixel reaches past the image; a tap inside the image reads
      exactly the pixel at its offset. */
  lemma SampleInBounds(width: int, height: int, x: int, y: int, kx: int, ky: int)
    requires 0 < width && 0 < height
    ensures 0 <= SampleIndex(width, height, x, y, kx, ky) < width * height
    ensures (0 <= x + kx < width && 0 <= y + ky < height) ==>
              SampleIndex(width, height, x, y, kx, ky) == (y + ky) * width + (x + kx)
  {
    IndexInImage(width, height, ClampIndex(x + kx, width - 1), ClampIndex(y + ky, height - 1));
  }

  /** The pixel the tap at offset (kx, ky) from pixel (x, y) reads. */
  function Tap(src: seq<Pixel>, width: int, height: int, x: int, y: int, kx: int, ky: int): Pixel
    requires Image(src, width, height)
  {
    SampleInBounds(width, height, x, y, kx, ky);
    src[SampleIndex(width, height, x, y, kx, ky)]
  }

  /** The side of the window, `2r + 1`. */
  function Side(radius: nat): nat
  {
    2 * radius + 1
  }

  /** The sum of `band` over the first `n` taps (kx = -radius .. -radius+n-1)
      of window row `ky` around (x, y). */
  function RowSum(src: seq<Pixel>, width: int, height: int, x: int, y: int, ky: int, radius: nat, band: Band, n: nat)
    : int
    requires Image(src, width, height)
    decreases n
  {
    if n == 0 then 0
    else
      RowSum(src, width, height, x, y, ky, radius, band, n - 1)
      + Sample(Tap(src, width, height, x, y, n - 1 - radius, ky), band)
  }

  /** The number of taps in the first `m` rows of a window. */
  function Taps(radius: nat, m: nat): nat
  {
    if m == 0 then 0 else Taps(radius, m - 1) + Side(radius)
  }

  /** The sum of `band` over the first `m` full rows (ky = -radius ..
      -radius+m-1) of the window around (x, y). */
  function WindowSum(src: seq<Pixel>, width: int, height: int, x: int, y: int, radius: nat, band: Band, m: nat)
    : int
    requires Image(src, width, height)
    decreases m
  {
    if m == 0 then 0
    else
      WindowSum(src, width, height, x, y, radius, band, m - 1)
      + RowSum(src, width, height, x, y, m - 1 - radius, radius, band, Side(radius))
  }

  /** The number of taps in a window. */
  function WindowCount(radius: nat): (count: nat)
    ensures 1 <= count
  {
    Taps(radius, Side(radius))
  }

  lemma {:induction false} TapsProduct(radius: nat, m: nat)
    ensures Taps(radius, m) == m * Side(radius)
    decreases m
  {
    if m > 0 {
      TapsProduct(radius, m - 1);
    }
  }

  /** A window of radius r holds (2r + 1)^2 taps. */
  lemma WindowCountIsSquare(radius: nat)
    ensures WindowCount(radius) == (2 * radius + 1) * (2 * radius + 1)
  {
    TapsProduct(radius, Side(radius));
  }

  /** The sum of `band` over the whole window around (x, y). */
  function Total(src: seq<Pixel>, width: int, height: int, x: int, y: int, radius: nat, band: Band): int
    requires Image(src, width, height)
  {
    WindowSum(src, width, height, x, y, radius, band, Side(radius))
  }

  /** Each tap is a channel value, so a row of `n` taps sums to at most
      `255 * n`. */
  lemma {:induction false} RowSumBound(src: seq<Pixel>, width: int, height: int, x: int, y: int, ky: int,
                                      radius: nat, band: Band, n: nat)
    requires Image(src, width, height)
    ensures 0 <= RowSum(src, width, height, x, y, ky, radius, band, n) <= 255 * n
  {
    if n > 0 {
      RowSumBound(src, width, height, x, y, ky, radius, band, n - 1);
    }
  }

  lemma {:induction false} WindowSumBound(src: seq<Pixel>, width: int, height: int, x: int, y: int,
                                         radius: nat, band: Band, m: nat)
    requires Image(src, width, height)
    ensures 0 <= WindowSum(src, width, height, x, y, radius, band, m) <= 255 * Taps(radius, m)
  {
    if m > 0 {
      WindowSumBound(src, width, height, x, y, radius, band, m - 1);
      RowSumBound(src, width, height, x, y, m - 1 - radius, radius, band, Side(radius));
    }
  }

  /** A window total lies between 0 and `255` times the tap count, so its
      mean is a channel value. */
  lemma TotalBound(src: seq<Pixel>, width: int, height: int, x: int, y: int, radius: nat, band: Band)
    requires Image(src, width, height)
    ensures 0 <= Total(src, width, height, x, y, radius, band) <= 255 * WindowCount(radius)
  {
    WindowSumBound(src, width, height, x, y, radius, band, Side(radius));
  }

  /** `sum / count` for a sum of `count` channel values is a channel value. */
  lemma MeanIsChannel(s: int, count: int)
    requires 0 < count && 0 <= s <= 255 * count
    ensures 0 <= s / count <= 255
  {
    MulLeCancel(s / count, 255, count);
  }

  function Mean(s: int, count: int): Channel
    requires 0 < count && 0 <= s <= 255 * count
  {
    MeanIsChannel(s, count);
    s / count
  }

  /** Output pixel (x, y) for an already clamped radius. */
  function BlurAt(src: seq<Pixel>, width: int, height: int, radius: nat, x: int, y: int): Pixel
    requires Image(src, width, height)
    requires 0 <= x < width && 0 <= y < height
  {
    IndexInImage(width, height, x, y);
    TotalBound(src, width, height, x, y, radius, RedBand);
    TotalBound(src, width, height, x, y, radius, GreenBand);
    TotalBound(src, width, height, x, y, radius, BlueBand);
    var count := WindowCount(radius);
    Pack(Argb(Alpha(src[y * width + x]),
              Mean(Total(src, width, height, x, y, radius, RedBand), count),
              Mean(Total(src, width, height, x, y, radius, GreenBand), count),
              Mean(Total(src, width, height, x, y, radius, BlueBand), count)))
  }

  /** Output pixel `i` in row-major order. */
  function BlurIndex(src: seq<Pixel>, width: int, height: int, radius: nat, i: int): Pixel
    requires Image(src, width, height)
    requires 0 <= i < width * height
  {
    RowMajor(width, height, i);
    BlurAt(src, width, height, radius, i % width, i / width)
  }

  /** The blur for a radius that is already clamped. */
  function BoxBlur(src: seq<Pixel>, width: int, height: int, radius: nat): (result: seq<Pixel>)
    requires HoldsImage(src, width, height)
    ensures |result| == width * height
  {
    if width == 0 || height == 0 then []
    else seq(width * height, i requires 0 <= i < width * height => BlurIndex(src, width, height, radius, i))
  }

  /** The native `blur`: clamp the radius, then blur. */
  function Blur(src: seq<Pixel>, width: int, height: int, radius: int): (result: seq<Pixel>)
    requires HoldsImage(src, width, height)
    ensures |result| == width * height
  {
    BoxBlur(src, width, height, ClampRadius(radius))
  }

  // ------------------------------------------------------------- properties

  /** Output pixel (x, y) of `Blur` is `BlurAt` of the clamped radius. */
  lemma BlurAtCoordinates(src: seq<Pixel>, width: int, height: int, radius: int, x: int, y: int)
    requires HoldsImage(src, width, height)
    requires 0 <= x < width && 0 <= y < height
    ensures 0 <= y * width + x < |Blur(src, width, height, radius)|
    ensures Blur(src, width, height, radius)[y * width + x] == BlurAt(src, width, height, ClampRadius(radius), x, y)
  {
    var i := y * width + x;
    IndexCoordinates(width, height, x, y);
    assert Blur(src, width, height, radius)[i] == BlurIndex(src, width, height, ClampRadius(radius), i);
  }

  /** The channels `BlurAt` packs: the alpha at (x, y) and the three window
      sums divided by the tap count. */
  lemma BlurAtChannels(src: seq<Pixel>, width: int, height: int, radius: nat, x: int, y: int)
    requires Image(src, width, height)
    requires 0 <= x < width && 0 <= y < height
    ensures 0 <= y * width + x < width * height
    ensures Unpack(BlurAt(src, width, height, radius, x, y))
            == Argb(Alpha(src[y * width + x]),
                    Total(src, width, height, x, y, radius, RedBand) / WindowCount(radius),
                    Total(src, width, height, x, y, radius, GreenBand) / WindowCount(radius),
                    Total(src, width, height, x, y, radius, BlueBand) / WindowCount(radius))
  {
    IndexInImage(width, height, x, y);
    TotalBound(src, width, height, x, y, radius, RedBand);
    TotalBound(src, width, height, x, y, radius, GreenBand);
    TotalBound(src, width, height, x, y, radius, BlueBand);
    var count := WindowCount(radius);
    UnpackPack(Argb(Alpha(src[y * width + x]),
                    Mean(Total(src, width, height, x, y, radius, RedBand), count),
                    Mean(Total(src, width, height, x, y, radius, GreenBand), count),
                    Mean(Total(src, width, height, x, y, radius, BlueBand), count)));
  }

  /** `c` is the mean of a sum `s` of `count` values, rounded down. */
  predicate IsFloorMean(c: int, s: int, count: int)
  {
    count * c <= s < count * (c + 1)
  }

  lemma FloorMean(s: int, count: int)
    requires 0 < count
    ensures IsFloorMean(s / count, s, count)
  {
  }

  /** Every output pixel keeps the alpha byte of the input pixel at the same
      index, and each colour channel is the floor of the window mean of that
      channel. */
  lemma BlurPixelMeaning(src: seq<Pixel>, width: int, height: int, radius: int, x: int, y: int)
    requires HoldsImage(src, width, height)
    requires 0 <= x < width && 0 <= y < height
    ensures 0 <= y * width + x < |Blur(src, width, height, radius)|
    ensures var r, d := ClampRadius(radius), Unpack(Blur(src, width, height, radius)[y * width + x]);
            && d.a == Alpha(src[y * width + x])
            && IsFloorMean(d.r, Total(src, width, height, x, y, r, RedBand), WindowCount(r))
            && IsFloorMean(d.g, Total(src, width, height, x, y, r, GreenBand), WindowCount(r))
            && IsFloorMean(d.b, Total(src, width, height, x, y, r, BlueBand), WindowCount(r))
  {
    var r := ClampRadius(radius);
    var count := WindowCount(r);
    BlurAtCoordinates(src, width, height, radius, x, y);
    BlurAtChannels(src, width, height, r, x, y);
    var d := Unpack(BlurAt(src, width, height, r, x, y));
    var red, green, blue := Total(src, width, height, x, y, r, RedBand),
                            Total(src, width, height, x, y, r, GreenBand),
                            Total(src, width, height, x, y, r, BlueBand);
    assert d.r == red / count && d.g == green / count && d.b == blue / count;
    FloorMean(red, count);
    FloorMean(green, count);
    FloorMean(blue, count);
  }

  /** One colour channel of an output pixel is the floor of its window
      mean. */
  lemma BlurChannelMeaning(src: seq<Pixel>, width: int, height: int, radius: int, x: int, y: int, band: Band)
    requires HoldsImage(src, width, height)
    requires 0 <= x < width && 0 <= y < height
    ensures 0 <= y * width + x < |Blur(src, width, height, radius)|
    ensures IsFloorMean(Sample(Blur(src, width, height, radius)[y * width + x], band),
                        Total(src, width, height, x, y, ClampRadius(radius), band),
                        WindowCount(ClampRadius(radius)))
  {
    BlurPixelMeaning(src, width, height, radius, x, y);
  }

  /** A radius at or below 1 blurs like radius 1, so radius 0 is not the
      identity; a radius at or above 25 blurs like radius 25. */
  lemma BlurRadiusClamped(src: seq<Pixel>, width: int, height: int, radius: int)
    requires HoldsImage(src, width, height)
    ensures radius <= MinRadius ==> Blur(src, width, height, radius) == Blur(src, width, height, MinRadius)
    ensures MaxRadius <= radius ==> Blur(src, width, height, radius) == Blur(src, width, height, MaxRadius)
  {
  }

  /** Channel `band` is `v` in each of the first `n` pixels. */
  predicate Uniform(src: seq<Pixel>, n: int, band: Band, v: Channel)
  {
    forall j :: 0 <= j < n && j < |src| ==> Sample(src[j], band) == v
  }

  lemma {:induction false} RowSumUniform(src: seq<Pixel>, width: int, height: int, x: int, y: int, ky: int,
                                         radius: nat, band: Band, n: nat, v: Channel)
    requires Image(src, width, height)
    requires Uniform(src, width * height, band, v)
    ensures RowSum(src, width, height, x, y, ky, radius, band, n) == n * v
    decreases n
  {
    if n > 0 {
      RowSumUniform(src, width, height, x, y, ky, radius, band, n - 1, v);
      SampleInBounds(width, height, x, y, n - 1 - radius, ky);
      assert Sample(Tap(src, width, height, x, y, n - 1 - radius, ky), band) == v;
      Distribute(n - 1, 1, v);
    }
  }

  lemma {:induction false} WindowSumUniform(src: seq<Pixel>, width: int, height: int, x: int, y: int,
                                            radius: nat, band: Band, m: nat, v: Channel)
    requires Image(src, width, height)
    requires Uniform(src, width * height, band, v)
    ensures WindowSum(src, width, height, x, y, radius, band, m) == Taps(radius, m) * v
    decreases m
  {
    if m > 0 {
      WindowSumUniform(src, width, height, x, y, radius, band, m - 1, v);
      RowSumUniform(src, width, height, x, y, m - 1 - radius, radius, band, Side(radius), v);
      Distribute(Taps(radius, m - 1), Side(radius), v);
    }
  }

  /** The window total of a channel that is `v` everywhere is `count * v`,
      so its mean is `v`. */
  lemma TotalUniform(src: seq<Pixel>, width: int, height: int, x: int, y: int, radius: nat, band: Band, v: Channel)
    requires Image(src, width, height)
    requires Uniform(src, width * height, band, v)
    ensures Total(src, width, height, x, y, radius, band) / WindowCount(radius) == v
  {
    WindowSumUniform(src, width, height, x, y, radius, band, Side(radius), v);
    DivideExactly(WindowCount(radius), v);
  }

  /** Output pixel (x, y) of the blur of an image with uniform colour
      channels is the source pixel. */
  lemma BlurUniformPixel(src: seq<Pixel>, width: int, height: int, radius: int, x: int, y: int,
                         r: Channel, g: Channel, b: Channel)
    requires HoldsImage(src, width, height)
    requires 0 <= x < width && 0 <= y < height
    requires Uniform(src, width * height, RedBand, r)
    requires Uniform(src, width * height, GreenBand, g)
    requires Uniform(src, width * height, BlueBand, b)
    ensures 0 <= y * width + x < width * height
    ensures Blur(src, width, height, radius)[y * width + x] == src[y * width + x]
  {
    var k := ClampRadius(radius);
    BlurAtCoordinates(src, width, height, radius, x, y);
    BlurAtChannels(src, width, height, k, x, y);
    TotalUniform(src, width, height, x, y, k, RedBand, r);
    TotalUniform(src, width, height, x, y, k, GreenBand, g);
    TotalUniform(src, width, height, x, y, k, BlueBand, b);
    var p := src[y * width + x];
    assert Sample(p, RedBand) == r && Sample(p, GreenBand) == g && Sample(p, BlueBand) == b;
    PixelExtensionality(BlurAt(src, width, height, k, x, y), p);
  }

  /** One element of the blur of an image with uniform colour channels. */
  lemma BlurUniformElement(src: seq<Pixel>, width: int, height: int, radius: int, i: int,
                           r: Channel, g: Channel, b: Channel)
    requires HoldsImage(src, width, height)
    requires 0 <= i < width * height
    requires Uniform(src, width * height, RedBand, r)
    requires Uniform(src, width * height, GreenBand, g)
    requires Uniform(src, width * height, BlueBand, b)
    ensures |Blur(src, width, height, radius)| == width * height
    ensures Blur(src, width, height, radius)[i] == src[i]
  {
    RowMajor(width, height, i);
    BlurUniformPixel(src, width, height, radius, i % width, i / width, r, g, b);
  }

  /** An image whose colour channels are the same everywhere is a fixed
      point of the blur, whatever the radius and whatever the alphas. */
  lemma BlurUniformFixedPoint(src: seq<Pixel>, width: int, height: int, radius: int, r: Channel, g: Channel, b: Channel)
    requires HoldsImage(src, width, height)
    requires forall j :: 0 <= j < width * height ==> Red(src[j]) == r && Green(src[j]) == g && Blue(src[j]) == b
    ensures Blur(src, width, height, radius) == src[..width * height]
  {
    var n := width * height;
    assert Uniform(src, n, RedBand, r) && Uniform(src, n, GreenBand, g) && Uniform(src, n, BlueBand, b);
    forall i | 0 <= i < n
      ensures Blur(src, width, height, radius)[i] == src[i]
    {
      BlurUniformElement(src, width, height, radius, i, r, g, b);
    }
  }

  /** A window row's sum is at least any one of its taps: the taps are
      channel values, never negative. */
  lemma {:induction false} RowSumCoversTap(src: seq<Pixel>, width: int, height: int, x: int, y: int, ky: int,
                                          radius: nat, band: Band, n: nat, kx: int)
    requires Image(src, width, height)
    requires 0 - radius <= kx < n - radius
    ensures RowSum(src, width, height, x, y, ky, radius, band, n)
            >= Sample(Tap(src, width, height, x, y, kx, ky), band)
  {
    if kx == n - 1 - radius {
      RowSumBound(src, width, height, x, y, ky, radius, band, n - 1);
    } else {
      RowSumCoversTap(src, width, height, x, y, ky, radius, band, n - 1, kx);
    }
  }

  /** A window's sum is at least the sum of any one of its rows. */
  lemma {:induction false} WindowSumCoversRow(src: seq<Pixel>, width: int, height: int, x: int, y: int,
                                             radius: nat, band: Band, m: nat, ky: int)
    requires Image(src, width, height)
    requires 0 - radius <= ky < m - radius
    ensures WindowSum(src, width, height, x, y, radius, band, m)
            >= RowSum(src, width, height, x, y, ky, radius, band, Side(radius))
  {
    if ky == m - 1 - radius {
      WindowSumBound(src, width, height, x, y, radius, band, m - 1);
    } else {
      WindowSumCoversRow(src, width, height, x, y, radius, band, m - 1, ky);
      RowSumBound(src, width, height, x, y, m - 1 - radius, radius, band, Side(radius));
    }
  }

  /** The window total is at least the channel value of every tap in the
      window, so one bright neighbour lifts the mean. */
  lemma TotalCoversTap(src: seq<Pixel>, width: int, height: int, x: int, y: int, radius: nat, band: Band,
                       kx: int, ky: int)
    requires Image(src, width, height)
    requires 0 - radius <= kx <= radius && 0 - radius <= ky <= radius
    ensures Total(src, width, height, x, y, radius, band) >= Sample(Tap(src, width, height, x, y, kx, ky), band)
  {
    RowSumCoversTap(src, width, height, x, y, ky, radius, band, Side(radius), kx);
    WindowSumCoversRow(src, width, height, x, y, radius, band, Side(radius), ky);
  }

  lemma NineTaps(radius: nat)
    requires radius == 1
    ensures WindowCount(radius) == 9
  {
    WindowCountIsSquare(radius);
  }

  /** A floor mean over nine taps whose sum reaches 255 is at least 28. */
  lemma FloorMeanOfOneWhite(c: int, s: int, count: int)
    requires 255 <= s && count == 9
    requires IsFloorMean(c, s, count)
    ensures 28 <= c
  {
  }

  /** Radius 0 (and every radius below it) is not the identity: it is
      clamped to 1, so a pixel with no red whose right-hand neighbour is
      fully red comes out of the blur with at least 28 red, a ninth of 255
      rounded down. */
  lemma BlurRadiusZeroIsNotIdentity(src: seq<Pixel>, width: int, height: int, radius: int)
    requires HoldsImage(src, width, height)
    requires 2 <= width && 1 <= height
    requires Red(src[0]) == 0 && Red(src[1]) == 255
    requires radius <= 1
    ensures 28 <= Red(Blur(src, width, height, radius)[0])
  {
    BlurChannelMeaning(src, width, height, radius, 0, 0, RedBand);
    var r := ClampRadius(radius);
    SampleInBounds(width, height, 0, 0, 1, 0);
    TotalCoversTap(src, width, height, 0, 0, r, RedBand, 1, 0);
    NineTaps(r);
    FloorMeanOfOneWhite(Red(Blur(src, width, height, radius)[0]), Total(src, width, height, 0, 0, r, RedBand), WindowCount(r));
  }

  // ------------------------------------------------------ the C++ loop nest

  /** The `ky`/`kx` loops for one output pixel: the three channel sums and
      the tap count. */
  method WindowTotals(src: seq<Pixel>, width: int, height: int, x: int, y: int, radius: nat)
    returns (rsum: int, gsum: int, bsum: int, count: int)
    requires Image(src, width, height)
    ensures rsum == Total(src, width, height, x, y, radius, RedBand)
    ensures gsum == Total(src, width, height, x, y, radius, GreenBand)
    ensures bsum == Total(src, width, height, x, y, radius, BlueBand)
    ensures count == WindowCount(radius)
  {
    var wm, hm := width - 1, height - 1;
    rsum, gsum, bsum, count := 0, 0, 0, 0;
    var ky: int := 0 - radius;
    while ky <= radius
      invariant 0 - radius <= ky <= radius + 1
      invariant rsum == WindowSum(src, width, height, x, y, radius, RedBand, ky + radius)
      invariant gsum == WindowSum(src, width, height, x, y, radius, GreenBand, ky + radius)
      invariant bsum == WindowSum(src, width, height, x, y, radius, BlueBand, ky + radius)
      invariant count == Taps(radius, ky + radius)
    {
      var py := ClampIndex(y + ky, hm);
      var kx: int := 0 - radius;
      while kx <= radius
        invariant 0 - radius <= kx <= radius + 1
        invariant rsum == WindowSum(src, width, height, x, y, radius, RedBand, ky + radius)
                          + RowSum(src, width, height, x, y, ky, radius, RedBand, kx + radius)
        invariant gsum == WindowSum(src, width, height, x, y, radius, GreenBand, ky + radius)
                          + RowSum(src, width, height, x, y, ky, radius, GreenBand, kx + radius)
        invariant bsum == WindowSum(src, width, height, x, y, radius, BlueBand, ky + radius)
                          + RowSum(src, width, height, x, y, ky, radius, BlueBand, kx + radius)
        invariant count == Taps(radius, ky + radius) + (kx + radius)
      {
        var px := ClampIndex(x + kx, wm);
        var idx := py * width + px;
        SampleInBounds(width, height, x, y, kx, ky);
        assert idx == SampleIndex(width, height, x, y, kx, ky);
        var color := src[idx];
        assert color == Tap(src, width, height, x, y, kx, ky);
        rsum := rsum + Red(color);
        gsum := gsum + Green(color);
        bsum := bsum + Blue(color);
        count := count + 1;
        kx := kx + 1;
      }
      ky := ky + 1;
    }
  }

  /** Output pixel (x, y) of `Blur` is the shift-and-or of the alpha at that
      index and the three window means, as the C++ writes it. */
  lemma BlurWord(src: seq<Pixel>, width: int, height: int, radius: int, x: int, y: int)
    requires HoldsImage(src, width, height)
    requires 0 <= x < width && 0 <= y < height
    ensures 0 <= y * width + x < |Blur(src, width, height, radius)|
    ensures var r := ClampRadius(radius);
            Blur(src, width, height, radius)[y * width + x]
            == PackWord(Alpha(src[y * width + x]),
                        Total(src, width, height, x, y, r, RedBand) / WindowCount(r),
                        Total(src, width, height, x, y, r, GreenBand) / WindowCount(r),
                        Total(src, width, height, x, y, r, BlueBand) / WindowCount(r))
  {
    var r := ClampRadius(radius);
    BlurAtCoordinates(src, width, height, radius, x, y);
    TotalBound(src, width, height, x, y, r, RedBand);
    TotalBound(src, width, height, x, y, r, GreenBand);
    TotalBound(src, width, height, x, y, r, BlueBand);
    var count := WindowCount(r);
    PackWordOfChannels(Argb(Alpha(src[y * width + x]),
                            Mean(Total(src, width, height, x, y, r, RedBand), count),
                            Mean(Total(src, width, height, x, y, r, GreenBand), count),
                            Mean(Total(src, width, height, x, y, r, BlueBand), count)));
  }

  lemma PrefixExtend(s: seq<Pixel>, k: int)
    requires 0 <= k < |s|
    ensures s[..k] + [s[k]] == s[..k + 1]
  {
  }

  /** The body of the `y`/`x` loops for one output pixel: the window sums,
      then the alpha of the source pixel and the three means packed with
      shifts and ors. */
  method BlurOutputPixel(src: seq<Pixel>, width: int, height: int, radius: int, x: int, y: int)
    returns (word: Pixel)
    requires HoldsImage(src, width, height)
    requires 0 <= x < width && 0 <= y < height
    ensures 0 <= y * width + x < |Blur(src, width, height, radius)|
    ensures word == Blur(src, width, height, radius)[y * width + x]
  {
    var rsum, gsum, bsum, count := WindowTotals(src, width, height, x, y, ClampRadius(radius));
    BlurWord(src, width, height, radius, x, y);
    var dstIdx := y * width + x;
    word := PackWord(Alpha(src[dstIdx]), rsum / count, gsum / count, bsum / count);
  }

  /** The native `blur` as the C++ writes it: the radius clamp, then one
      window per output pixel in row-major order, each packed with shifts
      and ors. */
  method BlurPixels(src: seq<Pixel>, width: int, height: int, radius: int) returns (result: seq<Pixel>)
    requires HoldsImage(src, width, height)
    ensures result == Blur(src, width, height, radius)
  {
    ghost var expected := Blur(src, width, height, radius);
    result := [];
    var y := 0;
    while y < height
      invariant 0 <= y <= height
      invariant y * width <= |expected|
      invariant result == expected[..y * width]
    {
      var x := 0;
      while x < width
        invariant 0 <= x <= width
        invariant y * width + x <= |expected|
        invariant result == expected[..y * width + x]
      {
        var word := BlurOutputPixel(src, width, height, radius, x, y);
        PrefixExtend(expected, y * width + x);
        result := result + [word];
        x := x + 1;
      }
      Distribute(y, 1, width);
      y := y + 1;
    }
  }
}
