/**
 * The analysis core of the GCC calculator: the per-channel mean colour of an
 * RGB image, truncated to whole numbers, and the Green Chromatic Coordinate
 * (GCC) computed from those truncated averages.
 *
 * An image is a grid of rows (axis 0 is the height, axis 1 the width) of
 * 8-bit RGB pixels. Means are exact rationals and the GCC is an exact `real`;
 * floating point is not modelled.
 */
module GccCalculator {

  /** An 8-bit unsigned channel value. */
  type Byte = x: int | 0 <= x < 256

  /** One pixel; channel indices 0, 1 and 2 are red, green and blue. */
  datatype Pixel = Pixel(r: Byte, g: Byte, b: Byte)

  /** An image: a sequence of rows of pixels. */
  type Grid = seq<seq<Pixel>>

  /** The three averages, in the order (red, green, blue). */
  datatype Rgb = Rgb(red: int, green: int, blue: int)

  /** The figures the calculator reports for one image. */
  datatype Analysis = Analysis(averages: Rgb, gcc: real)

  /** Truncating the mean of zero pixels (NaN) to an integer raises an error. */
  datatype Error = EmptyImage

  datatype Result<T> = Ok(value: T) | Err(error: Error)

  /** Every row has the width of the first, as in a decoded H x W image. */
  predicate IsRectangular(img: Grid) {
    forall i :: 0 <= i < |img| ==> |img[i]| == |img[0]|
  }

  /** The image of height `h` and width `w` whose every pixel is `p`. */
  function Uniform(h: nat, w: nat, p: Pixel): (img: Grid)
    ensures |img| == h && IsRectangular(img)
  {
    seq(h, _ => seq(w, _ => p))
  }

  /** Channel `c` (0 red, 1 green, 2 blue) of pixel `p`. */
  function Component(p: Pixel, c: nat): Byte
    requires c < 3
  {
    if c == 0 then p.r else if c == 1 then p.g else p.b
  }

  // ---------------------------------------------------------------------
  // Sums and exact means over both spatial axes
  // ---------------------------------------------------------------------

  /** Sum of channel `c` over one row. */
  function RowSum(row: seq<Pixel>, c: nat): (s: nat)
    requires c < 3
    ensures s <= 255 * |row|
  {
    if row == [] then 0 else Component(row[0], c) + RowSum(row[1..], c)
  }

  /** Number of pixels in the image (the product of its two axes). */
  function PixelCount(img: Grid): nat {
    if img == [] then 0 else |img[0]| + PixelCount(img[1..])
  }

  /** Sum of channel `c` over every pixel of the image. */
  function ChannelSum(img: Grid, c: nat): (s: nat)
    requires c < 3
    ensures s <= 255 * PixelCount(img)
  {
    if img == [] then 0 else RowSum(img[0], c) + ChannelSum(img[1..], c)
  }

  /** Exact arithmetic mean of channel `c` over all pixels. */
  function Mean(img: Grid, c: nat): real
    requires c < 3 && PixelCount(img) > 0
  {
    ChannelSum(img, c) as real / PixelCount(img) as real
  }

  /** Conversion of a number to an integer by dropping its fraction (toward zero). */
  function Truncate(x: real): (n: int)
    ensures 0.0 <= x ==> n as real <= x < n as real + 1.0
    ensures x < 0.0 ==> n as real - 1.0 < x <= n as real
  {
    if x >= 0.0 then x.Floor else -((-x).Floor)
  }

  // ---------------------------------------------------------------------
  // extract_rgb_values
  // ---------------------------------------------------------------------

  /**
   * The mean of each channel over all pixels, each truncated to an integer,
   * in the order (red, green, blue). An image without pixels has no mean.
   */
  function ExtractRgbValues(img: Grid): (res: Result<Rgb>)
    ensures res.Err? <==> PixelCount(img) == 0
    ensures res.Ok? ==>
      res.value == Rgb(Truncate(Mean(img, 0)), Truncate(Mean(img, 1)), Truncate(Mean(img, 2)))
    ensures res.Ok? ==>
      0 <= res.value.red <= 255 && 0 <= res.value.green <= 255 && 0 <= res.value.blue <= 255
  {
    var n := PixelCount(img);
    if n == 0 then Err(EmptyImage)
    else
      TruncatedMeanIsQuotient(ChannelSum(img, 0), n);
      TruncatedMeanIsQuotient(ChannelSum(img, 1), n);
      TruncatedMeanIsQuotient(ChannelSum(img, 2), n);
      Ok(Rgb(ChannelSum(img, 0) / n, ChannelSum(img, 1) / n, ChannelSum(img, 2) / n))
  }

  /** Truncating the exact mean `s / n` gives the integer quotient, which stays a byte. */
  lemma TruncatedMeanIsQuotient(s: nat, n: nat)
    requires 0 < n && s <= 255 * n
    ensures Truncate(s as real / n as real) == s / n
    ensures 0 <= s / n <= 255
    ensures s / n == 0 <==> s < n
  {
    var q := s / n;
    DivBounds(s, n);
    FloorOfRealQuotient(s, n);
    if 255 < q {
      MulMonotone(256, q, n);
    }
    if 1 <= q {
      MulMonotone(1, q, n);
    }
  }

  /** The integer quotient times the divisor lies within one divisor below the dividend. */
  lemma DivBounds(s: nat, n: nat)
    requires 0 < n
    ensures 0 <= s / n
    ensures (s / n) * n <= s < (s / n) * n + n
  {
  }

  /** The floor of the exact quotient is the integer quotient. */
  lemma FloorOfRealQuotient(s: nat, n: nat)
    requires 0 < n
    ensures 0.0 <= s as real / n as real
    ensures (s as real / n as real).Floor == s / n
  {
    var q := s / n;
    var m := s as real / n as real;
    var nr := n as real;
    DivBounds(s, n);
    DivMul(s as real, nr);
    assert m * nr == s as real;
    RealOfProduct(q, n);
    assert q as real * nr <= m * nr;
    QuotientBounds(q as real, m, nr);
    assert q * n + n == (q + 1) * n;
    RealOfProduct(q + 1, n);
    assert m * nr < (q + 1) as real * nr;
    QuotientBounds(m, (q + 1) as real, nr);
    assert q as real <= m < q as real + 1.0;
  }

  /** Integer products carry over to reals. */
  lemma RealOfProduct(a: int, b: int)
    ensures (a * b) as real == a as real * b as real
  {
  }

  /** Multiplying back by a positive divisor undoes the division. */
  lemma DivMul(x: real, n: real)
    requires 0.0 < n
    ensures (x / n) * n == x
  {
  }

  /** Multiplying by a positive number reflects order. */
  lemma QuotientBounds(x: real, y: real, n: real)
    requires 0.0 < n
    ensures x * n <= y * n ==> x <= y
    ensures x * n < y * n ==> x < y
  {
  }

  /** Multiplying by a non-negative number keeps order. */
  lemma MulMonotone(a: int, b: int, k: int)
    requires a <= b && 0 <= k
    ensures a * k <= b * k
  {
  }

  /** Integer multiplication is associative. */
  lemma MulAssoc(a: int, b: int, c: int)
    ensures a * (b * c) == (a * b) * c
  {
  }

  /** Dividing a multiple of `k` by `k` gives the factor back. */
  lemma DivCancel(k: int, x: int)
    requires 0 < k
    ensures (k * x) / k == x
  {
    var q := (k * x) / k;
    var r := (k * x) % k;
    assert k * x == k * q + r && 0 <= r < k;
    assert k * (x - q) == r;
    if x - q >= 1 {
      MulMonotone(1, x - q, k);
    } else if x - q <= -1 {
      MulMonotone(x - q, -1, k);
    }
  }

  // ---------------------------------------------------------------------
  // calculate_gcc
  // ---------------------------------------------------------------------

  /**
   * The Green Chromatic Coordinate g / (r + g + b); a zero total gives 0
   * rather than a division error.
   */
  function CalculateGcc(avgR: int, avgG: int, avgB: int): (gcc: real)
    ensures avgR + avgG + avgB == 0 ==> gcc == 0.0
    ensures avgR + avgG + avgB != 0 ==> gcc * (avgR + avgG + avgB) as real == avgG as real
  {
    var total := avgR + avgG + avgB;
    if total == 0 then 0.0 else avgG as real / total as real
  }

  /** For non-negative averages the GCC is a proportion. */
  lemma GccInUnitInterval(r: int, g: int, b: int)
    requires 0 <= r && 0 <= g && 0 <= b
    ensures 0.0 <= CalculateGcc(r, g, b) <= 1.0
  {
    var t := r + g + b;
    if t != 0 {
      var gcc := CalculateGcc(r, g, b);
      QuotientBounds(0.0, gcc, t as real);
      QuotientBounds(gcc, 1.0, t as real);
    }
  }

  /** For non-negative averages the guard fires exactly on black, and the GCC is 0 exactly when green is 0. */
  lemma GccZeroIff(r: int, g: int, b: int)
    requires 0 <= r && 0 <= g && 0 <= b
    ensures r + g + b == 0 <==> r == 0 && g == 0 && b == 0
    ensures CalculateGcc(r, g, b) == 0.0 <==> g == 0
  {
  }

  /** For non-negative averages the GCC is 1 exactly when only green is present. */
  lemma GccOneIff(r: int, g: int, b: int)
    requires 0 <= r && 0 <= g && 0 <= b
    ensures CalculateGcc(r, g, b) == 1.0 <==> r == 0 && b == 0 && 0 < g
  {
  }

  /** A grey (equal-channel, non-black) colour has GCC one third. */
  lemma GccOfGrey(v: int)
    requires 0 < v
    ensures CalculateGcc(v, v, v) == 1.0 / 3.0
  {
  }

  // ---------------------------------------------------------------------
  // The pipeline: GCC of the truncated averages
  // ---------------------------------------------------------------------

  /**
   * The averages and GCC reported for an image; the GCC is taken from the
   * truncated integer averages, not from the exact means.
   */
  function AnalyzeImage(img: Grid): (res: Result<Analysis>)
    ensures res.Err? <==> PixelCount(img) == 0
    ensures res.Ok? ==> ExtractRgbValues(img) == Ok(res.value.averages)
    ensures res.Ok? ==> (var a := res.value.averages; res.value.gcc == CalculateGcc(a.red, a.green, a.blue))
    ensures res.Ok? ==> 0.0 <= res.value.gcc <= 1.0
    ensures res.Ok? ==> (res.value.gcc == 0.0 <==> ChannelSum(img, 1) < PixelCount(img))
  {
    match ExtractRgbValues(img)
    case Err(e) => Err(e)
    case Ok(avg) =>
      TruncatedMeanIsQuotient(ChannelSum(img, 1), PixelCount(img));
      GccInUnitInterval(avg.red, avg.green, avg.blue);
      GccZeroIff(avg.red, avg.green, avg.blue);
      Ok(Analysis(avg, CalculateGcc(avg.red, avg.green, avg.blue)))
  }

  /** The GCC the exact means would give (the calculator does not compute this). */
  function MeanGcc(img: Grid): (gcc: real)
    requires PixelCount(img) > 0
    ensures Mean(img, 0) + Mean(img, 1) + Mean(img, 2) != 0.0 ==>
      gcc * (Mean(img, 0) + Mean(img, 1) + Mean(img, 2)) == Mean(img, 1)
  {
    var total := Mean(img, 0) + Mean(img, 1) + Mean(img, 2);
    if total == 0.0 then 0.0 else Mean(img, 1) / total
  }

  // ---------------------------------------------------------------------
  // Pixel counts and uniform images
  // ---------------------------------------------------------------------

  /** The pixel count of an H x W image is H * W; it is zero exactly when an axis is empty. */
  lemma {:induction false} PixelCountOfGrid(img: Grid)
    requires IsRectangular(img)
    ensures PixelCount(img) == if img == [] then 0 else |img| * |img[0]|
    ensures PixelCount(img) == 0 <==> img == [] || |img[0]| == 0
  {
    if img != [] {
      var rest := img[1..];
      assert IsRectangular(rest) by {
        forall i | 0 <= i < |rest| ensures |rest[i]| == |rest[0]| {
          assert rest[i] == img[i + 1] && rest[0] == img[1];
        }
      }
      PixelCountOfGrid(rest);
      if rest != [] {
        assert |rest[0]| == |img[0]|;
      }
      assert PixelCount(img) == |img[0]| + (|img| - 1) * |img[0]|;
      assert (|img| - 1) * |img[0]| + |img[0]| == |img| * |img[0]|;
    }
  }

  /** A row of `w` copies of `p` sums to `w` times the channel. */
  lemma {:induction false} UniformRowSum(w: nat, p: Pixel, c: nat)
    requires c < 3
    ensures RowSum(seq(w, _ => p), c) == w * Component(p, c)
  {
    if w > 0 {
      var row := seq(w, _ => p);
      assert row[1..] == seq(w - 1, _ => p);
      UniformRowSum(w - 1, p, c);
    }
  }

  /** An `h` x `w` image holds `h * w` pixels. */
  lemma UniformCount(h: nat, w: nat, p: Pixel)
    ensures PixelCount(Uniform(h, w, p)) == h * w
  {
    PixelCountOfGrid(Uniform(h, w, p));
  }

  /** An `h` x `w` image of copies of `p` sums to `h * w` times each channel. */
  lemma {:induction false} UniformSum(h: nat, w: nat, p: Pixel, c: nat)
    requires c < 3
    ensures ChannelSum(Uniform(h, w, p), c) == h * (w * Component(p, c))
  {
    if h > 0 {
      var img := Uniform(h, w, p);
      var k := w * Component(p, c);
      assert img[1..] == Uniform(h - 1, w, p);
      UniformSum(h - 1, w, p, c);
      UniformRowSum(w, p, c);
      assert ChannelSum(img, c) == k + (h - 1) * k;
    }
  }

  /** A non-empty image of one colour averages to exactly that colour. */
  lemma UniformAverages(h: nat, w: nat, p: Pixel)
    requires 0 < h && 0 < w
    ensures ExtractRgbValues(Uniform(h, w, p)) == Ok(Rgb(p.r, p.g, p.b))
  {
    var img := Uniform(h, w, p);
    var n := h * w;
    UniformCount(h, w, p);
    MulMonotone(1, h, w);
    assert PixelCount(img) == n > 0;
    forall c | 0 <= c < 3
      ensures ChannelSum(img, c) / n == Component(p, c)
    {
      UniformSum(h, w, p, c);
      MulAssoc(h, w, Component(p, c));
      DivCancel(n, Component(p, c));
    }
    assert ChannelSum(img, 0) / n == p.r;
    assert ChannelSum(img, 1) / n == p.g;
    assert ChannelSum(img, 2) / n == p.b;
  }

  /** A non-empty image of one colour reports that colour and its GCC. */
  lemma AnalyzeUniform(h: nat, w: nat, p: Pixel)
    requires 0 < h && 0 < w
    ensures AnalyzeImage(Uniform(h, w, p)) == Ok(Analysis(Rgb(p.r, p.g, p.b), CalculateGcc(p.r, p.g, p.b)))
  {
    UniformAverages(h, w, p);
  }

  /** Pure green gives GCC 1, white gives one third, black gives 0 (by the zero guard). */
  lemma AnalyzeReferenceColours(h: nat, w: nat)
    requires 0 < h && 0 < w
    ensures AnalyzeImage(Uniform(h, w, Pixel(0, 255, 0))).value.gcc == 1.0
    ensures AnalyzeImage(Uniform(h, w, Pixel(255, 255, 255))).value.gcc == 1.0 / 3.0
    ensures AnalyzeImage(Uniform(h, w, Pixel(0, 0, 0))).value.gcc == 0.0
  {
    AnalyzeUniform(h, w, Pixel(0, 255, 0));
    GccOneIff(0, 255, 0);
    AnalyzeUniform(h, w, Pixel(255, 255, 255));
    GccOfGrey(255);
    AnalyzeUniform(h, w, Pixel(0, 0, 0));
  }

  /**
   * Truncating before dividing changes the answer: a 1 x 2 image of one
   * green-only and one blue-only pixel of level 1 has exact means (0, 1/2, 1/2)
   * and exact GCC 1/2, but its truncated averages are (0, 0, 0), so the
   * calculator reports GCC 0.
   */
  lemma TruncationChangesGcc()
    ensures var img := [[Pixel(0, 1, 0), Pixel(0, 0, 1)]];
      PixelCount(img) == 2 &&
      AnalyzeImage(img) == Ok(Analysis(Rgb(0, 0, 0), 0.0)) &&
      MeanGcc(img) == 0.5
  {
  }

  /**
   * When every exact mean is a whole number, truncation loses nothing and the
   * reported GCC equals the GCC of the exact means.
   */
  lemma ExactMeansGiveMeanGcc(img: Grid)
    requires PixelCount(img) > 0
    requires forall c :: 0 <= c < 3 ==> Truncate(Mean(img, c)) as real == Mean(img, c)
    ensures AnalyzeImage(img).Ok?
    ensures AnalyzeImage(img).value.gcc == MeanGcc(img)
  {
  }
}
