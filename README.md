# Random background colour changer, modelled in Dafny

The program recolours the background of an image. It converts the image to
RGBA and takes the colour of the top-left pixel as the background colour.
Every pixel whose distance from that colour, as the program computes it in
wrapping `int16` arithmetic, is below `threshold` is given one random colour
drawn once per call. The intended measure is the Euclidean RGB distance;
the two differ once a squared distance exceeds 32767 (see Findings). Alpha
is never written.

The model has two modules:

- `ColorDistance` (`color_distance.dfy`) holds the per-pixel score and mask
  test. It follows NumPy's arithmetic: the channels are widened only to
  `int16`, so the squares and their sum wrap modulo 2^16 (`Wrap16`); the
  differences, in -255..255, fit in `int16` exactly. `np.sqrt(s) < t` is decided exactly on integers as
  `0 <= s && 0 < t && s < t * t`. A negative wrapped score gives NaN, and
  NaN is below nothing. The `Widening` parameter picks the arithmetic:
  `Int16` is the program as written, `Unbounded` is the exact Euclidean
  distance it intends (see Findings).
- `BackgroundChanger` (`background_changer.dfy`) holds the whole call.
  `ChangeBackground` gives the result on values: an image as rows of RGBA
  pixels, with the `EmptyImage` error when there is no top-left pixel.
  `Mask` is the program's `mask`. The lemmas state what the call promises.
  `ChangeBackgroundColor` does the masked overwrite in place on a
  height x width x 4 `array3<byte>`, like the program's `arr`. It is proved to
  leave exactly `ChangeBackground` of the array's old contents.

Every whole-image lemma holds for both arithmetics.

A threshold of 0 selects nothing, not even the top-left pixel. The test at
background_changer.py:44 is a strict `<` and the top-left pixel's distance is
0. The model follows the program here (`NonPositiveThresholdIsIdentity`,
`ReferenceSelected`); the claim that the reference pixel always matches at
threshold 0 does not hold for this code.

## Model

| member | source | states |
|---|---|---|
| `ColorDistance.Wrap16` | background_changer.py:34-41 | an `int16` result lies in -32768..32767, is congruent to the exact value modulo 2^16, and equals it when it fits |
| `ColorDistance.Wrap16Congruent` | background_changer.py:34-41 | values that agree modulo 2^16 are stored as the same `int16` |
| `ColorDistance.AddWrapped` | background_changer.py:38-40 | adding two already-wrapped terms in `int16` gives the wrap of their exact sum |
| `ColorDistance.SquaredDistance` | background_changer.py:37-41 | the squared RGB distance is zero exactly when the two colours are equal |
| `ColorDistance.Sub16` | background_changer.py:34-40 | an `int16` channel minus a `uint8` reference channel is the exact difference: widening to `int16` prevents the `uint8` underflow |
| `ColorDistance.Square16` | background_changer.py:38-40 | `** 2` in `int16` is exact for differences up to 181 in magnitude, and for 182..255 it wraps to the negative value square minus 65536 |
| `ColorDistance.Add16` | background_changer.py:38-40 | `int16` addition stays in -32768..32767 and is exact when the sum fits |
| `ColorDistance.SumOfSquares16` | background_changer.py:38-40 | the left-to-right `int16` chain of squares and additions equals the exact sum of squares wrapped once |
| `ColorDistance.Score` | background_changer.py:34-41 | the program's score (exact differences, wrapped squares, wrapped sums) is the true squared distance wrapped once |
| `ColorDistance.RootBelow` | background_changer.py:37-44 | the integer stand-in for `sqrt(s) < t`: false for a negative score (NaN) and for a threshold of zero or below |
| `ColorDistance.Selected` | background_changer.py:34-44 | for every pixel, the program selects it iff the threshold is positive and the wrapped squared distance is non-negative and below threshold squared |
| `ColorDistance.RootBelowIsRealComparison` | background_changer.py:37-44 | for a non-negative score, the integer test agrees with comparing its real square root against the threshold |
| `ColorDistance.SelectedExactInRange` | background_changer.py:34-44 | when the true squared distance is at most 32767, a pixel is selected iff the threshold is positive and the squared distance is below threshold squared |
| `ColorDistance.SmallDifferencesInRange` | background_changer.py:34-41 | channel differences of at most 104 keep the squared distance within 32767 |
| `ColorDistance.ReferenceSelected` | background_changer.py:31-44 | the reference colour is selected against itself iff the threshold is positive |
| `ColorDistance.NonPositiveThresholdSelectsNothing` | background_changer.py:37-44 | a threshold of zero or below selects no pixel, including when the score is NaN |
| `ColorDistance.SelectedMonotone` | background_changer.py:44 | a pixel selected under a threshold is selected under every larger one |
| `ColorDistance.UnboundedSelectionIsEuclidean` | background_changer.py:36-44 | with exact arithmetic a pixel is selected iff its Euclidean distance is below the threshold |
| `ColorDistance.Int16SelectsDistantPixel` | background_changer.py:34-44 | difference 148 on all channels: squared distance 65712 wraps to 176, so the pixel is selected at threshold 30; exact arithmetic rejects it |
| `ColorDistance.Int16RejectsOverflowedPixel` | background_changer.py:34-44 | difference 200 on one channel: the score wraps to -25536, so no threshold selects the pixel; exact arithmetic selects it above 200 |
| `BackgroundChanger.Reference` | background_changer.py:31 | the reference colour is the RGB of the top-left pixel: that pixel lies at squared distance zero from it |
| `BackgroundChanger.RecolorPixel` | background_changer.py:49-52 | one pixel after the overwrite: alpha kept; R, G, B become the drawn colour if selected; otherwise the pixel is unchanged |
| `BackgroundChanger.Recolored` | background_changer.py:44-52 | the whole masked overwrite: same height and row widths, every alpha kept, every selected pixel recoloured, every other pixel unchanged |
| `BackgroundChanger.ChangeBackground` | background_changer.py:31 | the call fails iff the image has no rows or an empty first row, because there is no top-left pixel |
| `BackgroundChanger.Mask` | background_changer.py:44 | every mask position lies inside the image |
| `BackgroundChanger.ShapePreserved` | background_changer.py:50-54 | the output has the input's height and each row keeps its width |
| `BackgroundChanger.AlphaPreserved` | background_changer.py:49-52 | every pixel's alpha is the same before and after |
| `BackgroundChanger.MaskedPixelRecolored` | background_changer.py:47-52 | every masked pixel ends with R, G, B equal to the one drawn colour, so all masked pixels share it |
| `BackgroundChanger.UnmaskedPixelUnchanged` | background_changer.py:49-52 | every pixel outside the mask is identical in all four channels |
| `BackgroundChanger.ChangedPixelWasMasked` | background_changer.py:44-52 | a pixel that differs after the call was in the mask and now carries the drawn colour |
| `BackgroundChanger.TopLeftRecolored` | background_changer.py:31-52 | with a positive threshold the top-left pixel is masked and takes the drawn colour |
| `BackgroundChanger.NonPositiveThresholdIsIdentity` | background_changer.py:37-54 | with a threshold of zero or below the mask is empty and the output equals the input |
| `BackgroundChanger.MaskMonotone` | background_changer.py:24-44 | raising the threshold never shrinks the mask |
| `BackgroundChanger.UniformImageFullyRecolored` | background_changer.py:31-52 | an image of one colour, with a positive threshold, becomes the drawn colour everywhere, alpha unchanged |
| `BackgroundChanger.RecolorPixelAt` | background_changer.py:50-52 | one pixel is overwritten in R, G, B iff selected; every other pixel is unchanged |
| `BackgroundChanger.RecolorRow` | background_changer.py:50-52 | every pixel of one row gets the masked overwrite; other rows are unchanged |
| `BackgroundChanger.ChangeBackgroundColor` | background_changer.py:21-54 | in place on the RGBA array: fails and changes nothing on an empty image; otherwise leaves exactly `ChangeBackground` of the old contents |

## Findings

| source | as written | input that shows it | evidently intended | confidence | as-written member | corrected member |
|---|---|---|---|---|---|---|
| background_changer.py:34-41 | the channels are widened only to `int16`, so the squares and their sum wrap modulo 2^16 | reference (0,0,0), pixel (148,148,148): 3 * 148^2 = 65712 wraps to 176, and sqrt(176) < 30, so a pixel at distance about 256 is selected. Pixel (200,0,0): 40000 wraps to -25536, sqrt gives NaN, and the pixel is never selected | selection by the true Euclidean distance | high; not executed | `ColorDistance.Int16SelectsDistantPixel` | `ColorDistance.UnboundedSelectionIsEuclidean` |

The model keeps both behaviours behind the `Widening` parameter.
`ChangeBackgroundColor` and every lemma in `BackgroundChanger` are stated
and proved for `Unbounded`, the corrected arithmetic, and for `Int16`, the
program as written. For the reference pixel and for pixels within squared
distance 32767, the two agree (`SelectedExactInRange`).

## Left out

- `main` (background_changer.py:68-124) is left out. It is the Streamlit page: upload, threshold slider, buttons, preview and download.
- `pil_image_to_bytes` (background_changer.py:57-62) is left out. It is PNG encoding through PIL into a byte buffer.
- `img.convert("RGBA")`, `np.array` and `Image.fromarray` (background_changer.py:27-28, 54) are left out. They are codec and conversion calls. The model starts from the RGBA byte array and ends with it. So the copy that keeps the caller's image untouched is not modelled: `ChangeBackgroundColor` overwrites the array it is given, which in the program is that fresh copy.
- `generate_random_color` (background_changer.py:12-18) is left out. The colour is a parameter of the call. Its components lie in 0..255 because they have type `byte`; the model does not draw them at random.
- `np.sqrt` on `float32` is replaced by the exact integer test. Scores are at most 32767, and IEEE square root is correctly rounded. For `t <= 0` nothing passes either way, because a square root is never negative and NaN compares false. For a positive `t` with `t * t` above 32767, every non-negative score passes either way. For a smaller positive `t`, `sqrt(t * t - 1)` lies more than 1/(2t) below `t`, far more than one `float32` rounding step, so the comparison comes out the same.
- The slider's values (5..100 in steps of 5, default 30) are left out. `threshold` is any integer, and every property holds for all of them.
- The function's own default `threshold=30` (background_changer.py:21) is left out. Every call in the model passes the threshold explicitly.
- The NumPy "invalid value" runtime warning that `np.sqrt` emits for a negative `int16` score (background_changer.py:37) is left out. It is a diagnostic only; the NaN it comes with is modelled, since such a pixel is not selected.
- The program makes three vectorised passes, one per channel (background_changer.py:50-52). The model makes one pass over rows and columns that writes all three channels of a masked pixel. Every mask bit comes from the original array, so the final array is the same.
