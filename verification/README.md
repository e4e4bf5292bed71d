# GCC calculator — verified model of the analysis core

The GCC calculator reports, for one uploaded photograph, the average red,
green and blue levels of the image and its Green Chromatic Coordinate (GCC),
a greenness index defined as `g / (r + g + b)`. This project models the two
functions that do the arithmetic and the two lines that chain them:

- `extract_rgb_values`: the mean of each channel over both spatial axes of
  an 8-bit RGB image, each mean truncated to an integer with `int(...)`,
  returned in the order (red, green, blue);
- `calculate_gcc`: the green share of the three averages, with a guard that
  returns 0 instead of dividing by a zero total;
- the pipeline, which feeds the truncated integer averages (not the exact
  means) into `calculate_gcc`.

Everything lives in one module, `GccCalculator` (`gcc_calculator.dfy`).
An image is a `Grid`, a sequence of rows of `Pixel`s (axis 0 is the height,
axis 1 the width); each channel is a `Byte` in [0, 255]. Sums are exact
integers and means exact rationals. `Truncate` is Python's `int()` on a
number (drop the fraction, toward zero). The GCC is a `real`.

An image with no pixels has a NaN mean, and `int()` of NaN raises an error;
the model returns `Err(EmptyImage)` there instead of requiring a non-empty
image.

The GCC is computed from the *truncated* averages, not from the exact means
(the usual definition of GCC uses the means themselves). The model follows
the code. `TruncationChangesGcc`
exhibits an image where this changes the reported GCC (0 instead of 1/2).
`ExactMeansGiveMeanGcc` shows that the two agree whenever every mean is a
whole number.

## Model

| member | source | states |
|---|---|---|
| `GccCalculator.RowSum` | GCC_calculator_streamlit.py:10 | the channel sum over a row of 8-bit pixels is at most 255 times the row length |
| `GccCalculator.ChannelSum` | GCC_calculator_streamlit.py:10 | the channel sum over all rows (both axes) is at most 255 times the pixel count |
| `GccCalculator.PixelCountOfGrid` | GCC_calculator_streamlit.py:10 | a rectangular image holds height × width pixels, so it has none exactly when an axis is empty |
| `GccCalculator.Truncate` | GCC_calculator_streamlit.py:12 | `int()` drops the fraction: for x ≥ 0 the result n has n ≤ x < n + 1, for x < 0 it has n − 1 < x ≤ n |
| `GccCalculator.TruncatedMeanIsQuotient` | GCC_calculator_streamlit.py:10-12 | truncating the exact mean s/n of 8-bit values gives the integer quotient, lies in [0, 255], and is 0 exactly when s < n |
| `GccCalculator.ExtractRgbValues` | GCC_calculator_streamlit.py:5-12 | fails exactly when there are no pixels (`PixelCount`, the sum of the row lengths, is 0); otherwise returns (red, green, blue) = `Truncate` of `Mean` for channels 0, 1, 2, where `Mean` is the exact real `ChannelSum / PixelCount` (the value `np.mean` approximates), each result in [0, 255] |
| `GccCalculator.UniformAverages` | GCC_calculator_streamlit.py:10-12 | an image whose every pixel is (r, g, b), with at least one row and one column, averages to exactly (r, g, b) |
| `GccCalculator.CalculateGcc` | GCC_calculator_streamlit.py:14-18 | a zero total yields 0; otherwise the result times the total equals the green value |
| `GccCalculator.GccInUnitInterval` | GCC_calculator_streamlit.py:14-18 | for non-negative averages the GCC lies in [0, 1] |
| `GccCalculator.GccZeroIff` | GCC_calculator_streamlit.py:15-17 | for non-negative averages the zero guard fires exactly on (0, 0, 0), and the GCC is 0 exactly when green is 0 |
| `GccCalculator.GccOneIff` | GCC_calculator_streamlit.py:14-18 | for non-negative averages the GCC is 1 exactly when red and blue are 0 and green is positive |
| `GccCalculator.GccOfGrey` | GCC_calculator_streamlit.py:14-18 | equal positive averages give GCC 1/3 |
| `GccCalculator.AnalyzeImage` | GCC_calculator_streamlit.py:32-33 | fails exactly on images without pixels; otherwise reports the averages of `ExtractRgbValues` and the GCC of those truncated averages, which lies in [0, 1] and is 0 exactly when the green sum is below the pixel count (mean green under 1) |
| `GccCalculator.AnalyzeUniform` | GCC_calculator_streamlit.py:32-33 | a non-empty one-colour image reports that colour and `CalculateGcc` of it |
| `GccCalculator.AnalyzeReferenceColours` | GCC_calculator_streamlit.py:32-33 | non-empty pure green, white and black images report GCC 1, 1/3 and 0 |
| `GccCalculator.TruncationChangesGcc` | GCC_calculator_streamlit.py:32-33 | the 1 × 2 image [(0,1,0), (0,0,1)] reports averages (0, 0, 0) and GCC 0, while its exact means give GCC 1/2 |
| `GccCalculator.ExactMeansGiveMeanGcc` | GCC_calculator_streamlit.py:32-33 | when every exact mean is a whole number, the reported GCC equals the GCC of the exact means |

## Left out

- The Streamlit page (title, uploader, image display, columns, metrics and the colour-preview box, lines 20-53): presentation and I/O only.
- Decoding the upload and `image.convert("RGB")` (lines 7 and 28): a foreign library call; the model takes the decoded H × W grid of 8-bit RGB pixels as its input.
- The four-decimal display of the GCC (line 46): floating-point string formatting.
- IEEE-754 arithmetic in `np.mean` and in `/` (lines 10 and 18): the GCC is an exact real, while the program's `avg_g / total` is the nearest double (0.3333333333333333 for a white image where `AnalyzeReferenceColours` proves exactly 1/3), a difference the four-decimal display at line 46 usually hides; `np.mean`'s floating-point sum and quotient give the same truncated averages as the exact `Mean` except on images of more than about 2^45 pixels.
- HSV colour masks, colour-class counts and ratios, and batch summaries: they are not part of this code, so there is nothing to model.
- Ragged grids: a decoded image is always rectangular; the averaging functions accept any grid and average over all its pixels, and `PixelCountOfGrid` states the H × W count for rectangular ones.
