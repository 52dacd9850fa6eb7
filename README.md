# Background-removal pixel filters

Two scripts turn an image's background transparent. Each loads an image, converts it to RGBA, walks the flat list of pixels once and builds a new list. For every pixel the new list gets either the sentinel `(255, 255, 255, 0)` (white, fully transparent) or the pixel itself.

- `remove_white_background` (remove_background.py) erases a pixel when its red, green and blue channels all exceed `255 - threshold`. The default threshold is 30; the script also writes an "aggressive" output at 50.
- `remove_grey_background` (remove_laya_background.py) erases a pixel when it is a light grey or when all of R, G and B exceed `255 - grey_threshold`. A light grey is a pixel whose largest channel deviation from the mean `avg_color` is below 30 and whose `avg_color` exceeds `255 - grey_threshold`. The default is 50; the script also writes outputs at 30 ("conservative") and 80 ("aggressive").

The model has five modules:

- `Pixels` (pixels.dfy) defines byte channels, the `Pixel` datatype, the `Transparent` sentinel and the shared "all channels above a bound" test.
- `ClassifyAndErase` (classify_and_erase.dfy) holds the loop pattern both scripts share. `Erased` builds the output for any classifier by appending at the end, as the loops do. Its lemmas are proved once for every classifier.
- `WhiteBackground` (white_background.dfy) models the white filter.
- `GreyBackground` (grey_background.dfy) models the grey filter.
- `FilterComparison` (filter_comparison.dfy) relates the two filters.

Each filter module has three parts:

- a pure per-pixel test;
- `Filtered`, which is `Erased` with that test;
- a method with a `while` loop that mirrors the script's loop. The method is proved equal to `Filtered` and to the index-wise erase-or-keep rule.

The lemmas cover these properties:

- Each output pixel depends only on the input pixel at the same position.
- Filtering a concatenation is the concatenation of the filtered parts.
- A threshold of 0 or below erases nothing.
- The filter is monotone in the threshold.
- The decision ignores alpha.
- Running a filter twice equals one run at the larger threshold. So both filters are idempotent at every threshold, not only at positive ones: at a threshold of 0 or below, nothing is erased, so the filter is the identity.
- The grey filter absorbs the white filter.

The grey test divides by 3 in floating point. The model computes `avg_color` and `color_variance` as exact rationals (`real`), as the code is written. `GreyBackground.ScaledTestExact` proves that the rational test equals an integer test scaled by 3. `GreyBackground.VarianceMargin` and `GreyBackground.AverageMargin` prove that each compared quantity has one of two forms. Either it sits exactly on its bound, and then the channel sum is divisible by 3, so the division is exact. Or it is at least 1/3 away from the bound, which is far more than any double-precision rounding error. So the float comparisons decide as the rational ones do.

## Model

| member | source | states |
|---|---|---|
| `ClassifyAndErase.Erased` | remove_background.py:29-38 | The list built by the shared loop has exactly one pixel per input pixel. |
| `ClassifyAndErase.ErasedAt` | remove_background.py:30-38 | Output pixel i is the sentinel if the classifier accepts input pixel i, and input pixel i (alpha included) otherwise. |
| `ClassifyAndErase.ErasedAppend` | remove_laya_background.py:30-46 | No cross-pixel influence and order preserved: erasing `left + right` gives the erased `left` followed by the erased `right`. |
| `ClassifyAndErase.NothingErased` | remove_background.py:33-38 | With a classifier that accepts no pixel, the output equals the input. |
| `ClassifyAndErase.EraseTwice` | remove_background.py:33-38 | Two passes equal one pass with a third classifier, when they do so on every single pixel. |
| `ClassifyAndErase.ErasureMonotone` | remove_laya_background.py:40-43 | With a classifier that accepts more pixels, every position made transparent stays transparent. |
| `ClassifyAndErase.ErasureIgnoresAlpha` | remove_laya_background.py:32-46 | With a classifier that reads only R, G and B, two images that differ only in alpha are erased at the same positions and kept at the others. |
| `WhiteBackground.RemoveWhiteBackground` | remove_background.py:29-38 | The loop appends exactly one pixel per input pixel. Output i is the transparent sentinel when R, G and B of input i all exceed `255 - threshold`, and input i unchanged (alpha included) otherwise. The result equals `Filtered`. The threshold defaults to 30. |
| `WhiteBackground.FilteredAt` | remove_background.py:30-38 | The output has the input's length. Output pixel i is the sentinel if R, G and B of input pixel i all exceed `255 - threshold`, and input pixel i otherwise. |
| `WhiteBackground.NonPositiveThresholdKeepsAll` | remove_background.py:33 | With threshold 0 (or below) no byte channel exceeds 255, so the output equals the input. |
| `WhiteBackground.FilterTwice` | remove_background.py:33-38 | Filtering at `first`, then at `second`, equals one filtering at the larger of the two. |
| `WhiteBackground.FilterIdempotent` | remove_background.py:33-38 | Filtering the filter's own output changes nothing, at every threshold. |
| `WhiteBackground.ErasedStaysErased` | remove_background.py:33 | If output pixel i is transparent at a threshold, it is also transparent at any larger threshold. |
| `WhiteBackground.AggressiveErasesMore` | remove_background.py:60-64 | Every pixel made transparent by the threshold-30 output is transparent in the threshold-50 output. |
| `WhiteBackground.FilterIgnoresAlpha` | remove_background.py:33 | Two images that differ only in alpha are erased at exactly the same positions and kept at the others. |
| `GreyBackground.RemoveGreyBackground` | remove_laya_background.py:29-46 | The loop appends one pixel per input pixel. Output i is the sentinel when R, G and B all exceed `255 - grey_threshold`, and also when the pixel is a light grey (variance < 30 and mean > `255 - grey_threshold`). Otherwise output i is input i unchanged. The result equals `Filtered`. The threshold defaults to 50. |
| `GreyBackground.FilteredAt` | remove_laya_background.py:30-46 | The output has the input's length. Output pixel i is the sentinel if input pixel i is a light grey or has all channels above `255 - grey_threshold`, and input pixel i otherwise. |
| `GreyBackground.ScaledQuantities` | remove_laya_background.py:36-37 | Three times `avg_color` is the channel sum. Three times `color_variance` is the largest of \|3c - sum\| over the channels. |
| `GreyBackground.ScaledTestExact` | remove_laya_background.py:36-40 | The light-grey test on exact rationals holds iff the integer test `spread < 90 && sum > 3 * (255 - t)` holds. |
| `GreyBackground.VarianceMargin` | remove_laya_background.py:37-40 | `color_variance` equals 30 only when the channel sum is divisible by 3. Otherwise it is at least 1/3 away from 30 on either side. |
| `GreyBackground.AverageMargin` | remove_laya_background.py:36-40 | `avg_color` equals `255 - grey_threshold` only when the sum is divisible by 3. Otherwise it is at least 1/3 away from it on either side. |
| `GreyBackground.TransparentIsBackground` | remove_laya_background.py:36-43 | The sentinel (variance 0, mean 255) is erased again iff the threshold is at least 1. |
| `GreyBackground.ErasedOnlyAboveZero` | remove_laya_background.py:40-41 | No pixel passes either disjunct unless the threshold is positive. |
| `GreyBackground.BackgroundMonotone` | remove_laya_background.py:40-41 | A pixel erased at one threshold is erased at every larger threshold. |
| `GreyBackground.NonPositiveThresholdKeepsAll` | remove_laya_background.py:40-46 | With threshold 0 (or below) the output equals the input. |
| `GreyBackground.ErasePixelTwice` | remove_laya_background.py:40-46 | Erasing a pixel at `first` and then at `second` equals erasing it once at the larger threshold. |
| `GreyBackground.FilterTwice` | remove_laya_background.py:40-46 | Filtering at `first`, then at `second`, equals one filtering at the larger of the two. |
| `GreyBackground.FilterIdempotent` | remove_laya_background.py:36-46 | Filtering the filter's own output changes nothing, at every threshold. |
| `GreyBackground.ErasedStaysErased` | remove_laya_background.py:40-41 | If output pixel i is transparent at a threshold, it is also transparent at any larger threshold. |
| `GreyBackground.ThresholdVariantsNested` | remove_laya_background.py:68-76 | The transparent pixels of the conservative (30) output are among those of the standard (50) output. Those of the standard output are among those of the aggressive (80) output. |
| `GreyBackground.DecisionIgnoresAlpha` | remove_laya_background.py:32-41 | Two pixels with equal R, G and B get the same decision whatever their alpha: `a` is unpacked but never read. |
| `GreyBackground.FilterIgnoresAlpha` | remove_laya_background.py:32-46 | Two images that differ only in alpha are erased at exactly the same positions and kept at the others. |
| `FilterComparison.WhiteIsGreyBackground` | remove_laya_background.py:41 | A pixel that passes the white test at t passes the grey test at every threshold of t or above. |
| `FilterComparison.WhiteErasedIsGreyErased` | remove_laya_background.py:40-43 | Every position the white filter makes transparent at t, the grey filter at t makes transparent too. |
| `FilterComparison.GreyAfterWhite` | remove_laya_background.py:40-46 | Grey filtering the white filter's output equals grey filtering the input, when the white threshold is at most the grey threshold. |
| `FilterComparison.WhiteAfterGrey` | remove_laya_background.py:40-46 | White filtering the grey filter's output changes nothing, when the white threshold is at most the grey threshold. |

## Left out

- Image decoding and encoding (`Image.open`, `convert("RGBA")`, `getdata`, `putdata`, `save`) are library calls. The model starts from the decoded, flattened pixel list, with every channel a byte. Image width and height are not modelled, so "same dimensions" becomes "same length".
- `main` in both scripts is not modelled. It holds fixed file paths, the input-exists check with its early return, and the repeated calls. Only its threshold constants (30 and 50; 50, 30 and 80) appear, in the lemmas on nested outputs.
- Console output (`print`) is not modelled.
- IEEE double arithmetic is not modelled. `avg_color` and `color_variance` are computed as exact rationals. The margin lemmas bound how far each compared quantity is from its bound. That rounding error stays below those margins is argued in prose, not proved.
- Thresholds are modelled as integers, as every caller passes them. A floating-point threshold would also be accepted by the scripts.
