# Box geometry and masked losses of `util.py` (hart-pytorch)

This project models the numeric core of the hart-pytorch utility module in Dafny:

- box geometry on `(x, y, w, h)` boxes: the validity assertion, the
  non-negative clamp, intersection area, the intersection expressed in the
  frame of an enclosing box, and intersection-over-union;
- the masked negative-log-likelihood mean that every loss reduces through,
  together with the three losses built on it (`iou_loss`,
  `intersection_loss`, `area_loss`);
- the convolution output-size arithmetic.

All of it is pure: values in, value out. Tensors of boxes of shape
`(batch, nobjs, 4)` are modelled as `seq<seq<Box>>`, and `(batch, nobjs)`
tensors as `seq<seq<real>>`. Reals stand for floats.

A failing validity assertion becomes `Err(InvalidBox)`. An unguarded IEEE
`0/0` becomes `Err(NotANumber)`. NaN spreads through every later sum and
product, so a NaN in any slot, padded or not, makes the whole loss
`Err(NotANumber)`.

The negative log `nll` is a parameter of type `real -> real`. Every loss
property is stated for any such function, or for any function that maps a
given interval into a given range.

Modules:

- `Results` (`results.dfy`): the `Fault`, `Result` and `Option` types.
- `Numeric` (`numeric.dfy`): max, min and the `clamp(min=…, max=…)` forms.
- `BoxGeometry` (`box_geometry.dfy`): the `Box` type and the box operations.
- `MaskedLoss` (`masked_nll.dfy`): `masked_nll`, built the way the source
  computes it, next to an independent reference definition, "the mean over
  non-empty rows of the mean over present slots", with a proof that the two
  agree.
- `Losses` (`losses.dfy`): `iou_loss`, `intersection_loss` and `area_loss`.
- `ConvSize` (`conv_size.dfy`): `conv_output_size` with numpy's floor
  division and broadcasting.

`masked_nll` guards a row with no present slot (util.py:114 clamps the
count at 1 and zeroes that row) but not a batch with none: util.py:115
divides by the number of non-empty rows, which is then `0/0`. The model
returns `Err(NotANumber)` in that case (`MaskedLoss.MaskedNllUndefinedIff`).

## Model

| member | source | states |
|---|---|---|
| BoxGeometry.Valid | util.py:47-49 | the validity check holds when width and height are non-negative; ValidIffClampFixes proves this is exactly the boxes clamp_bbox leaves unchanged |
| BoxGeometry.ValidIffClampFixes | util.py:47-59 | a box passes the validity check iff clamp_bbox returns it unchanged |
| BoxGeometry.ClampBox | util.py:52-59 | x and y are unchanged; the width and height become max(w, 0) and max(h, 0); the result is always a valid box; a valid box is returned unchanged |
| BoxGeometry.ValidityExamples | util.py:47-49 | a box with width -1 is invalid and makes intersection fail with the validity error; the all-zero box is valid, and its intersection with itself is 0 |
| BoxGeometry.Overlap | util.py:66-71 | the clamped overlap of two intervals is non-negative and at most either length; it is positive exactly when both lengths are positive and the intervals overlap strictly |
| BoxGeometry.IntersectionArea | util.py:66-72 | the unchecked product of the two clamped overlaps is never negative; IntersectionBounded, IntersectionSymmetric and IntersectionPositiveIff state the rest through Intersection |
| BoxGeometry.Intersection | util.py:62-72 | fails with InvalidBox exactly when a box has a negative width or height; otherwise it returns a non-negative area |
| BoxGeometry.IntersectionBounded | util.py:62-72 | for valid boxes the intersection area is at most the area of each box |
| BoxGeometry.IntersectionSymmetric | util.py:62-72 | intersection(a, b) == intersection(b, a) |
| BoxGeometry.IntersectionWithSelf | util.py:62-72 | a valid box intersected with itself gives its own area |
| BoxGeometry.IntersectionPositiveIff | util.py:66-72 | for valid boxes the intersection is positive iff both boxes have positive area and overlap strictly on both axes |
| BoxGeometry.SeparatedBoxes | util.py:62-100 | valid boxes separated along an axis have intersection 0, and IoU 0 when either has positive area |
| BoxGeometry.IntersectionWithin | util.py:75-93 | fails exactly on an invalid box; otherwise returns a valid box whose origin is the intersection's origin relative to `within`, clamped at 0; its area equals intersection(bbox, within); its width and height are exactly the clamped overlaps on each axis; a non-empty result fits inside `within`'s extent |
| BoxGeometry.IntersectionWithinIsOverlap | util.py:75-93 | on every non-empty axis, the returned rectangle moved back to global coordinates lies inside both boxes |
| BoxGeometry.Iou | util.py:96-100 | InvalidBox exactly when a box is invalid; NaN exactly when both valid boxes have zero area (the unguarded 0/0); otherwise a ratio in [0, 1] |
| BoxGeometry.IouSymmetric | util.py:96-100 | iou(a, b) == iou(b, a) |
| BoxGeometry.IouWithSelf | util.py:96-100 | a valid box with positive area has IoU 1 with itself |
| BoxGeometry.IouOneIffSame | util.py:96-100 | for valid boxes with area(a) > 0, iou(a, b) == 1 iff a == b |
| MaskedLoss.MaskedTerm | util.py:109-112 | a slot's term is its (weighted) nll when present and 0 when absent |
| MaskedLoss.MaskedNll | util.py:108-115 | computed step by step as the source does; its only failure is NaN (its value is characterised by MaskedNllIsMeanOfRowMeans) |
| MaskedLoss.RowLossIsMean | util.py:112-114 | a row's loss is the mean of the weighted nll over its present slots, or 0 for a row with none |
| MaskedLoss.MaskedNllIsMeanOfRowMeans | util.py:108-115 | masked_nll equals the reference definition: the mean, over rows with a present slot, of each row's mean over its present slots |
| MaskedLoss.MaskedNllUndefinedIff | util.py:113-115 | the result is NaN iff no slot of the batch is present |
| MaskedLoss.MaskedNllIgnoresAbsentSlots | util.py:112-115 | values and weights in absent (padded) slots do not affect the result |
| MaskedLoss.MaskedNllIgnoresEmptyRow | util.py:113-115 | appending a batch row with no present slot leaves the result unchanged |
| MaskedLoss.MaskedNllBetween | util.py:108-115 | if every present weighted loss lies in [lo, hi], so does the result |
| MaskedLoss.MaskedNllExample | util.py:108-115 | a batch with a single present slot returns nll of that slot's value |
| Losses.IouLoss | util.py:118-124 | InvalidBox iff some box is invalid; otherwise NaN iff some slot (padded or not) has two zero-area boxes or no slot is present; otherwise masked_nll of the IoU grid |
| Losses.IouLossNaNFromPadding | util.py:118-124 | two all-zero boxes in one slot make the loss NaN even when the slot is not present |
| Losses.IouLossBetween | util.py:118-124 | if nll maps [0, 1] into [lo, hi], a defined IoU loss lies in [lo, hi] |
| Losses.Coverage | util.py:158-160 | when the target area is non-zero the ratio times that area is the intersection; a zero target area divides by 1 |
| Losses.CoverageBounds | util.py:157-160 | for valid boxes the coverage ratio is in [0, 1], and 0 when the target area is 0 |
| Losses.IntersectionLoss | util.py:157-161 | InvalidBox iff some box is invalid; otherwise NaN iff no slot is present (the zero target area never gives NaN); otherwise masked_nll of the coverage grid |
| Losses.IntersectionLossBetween | util.py:157-161 | if nll maps [0, 1] into [lo, hi], a defined intersection loss lies in [lo, hi] |
| Losses.AreaWeight | util.py:171 | the weight is in [1, 10]; it is 1 at or below ratio 1, the ratio itself in between, and 10 at or above ratio 10 |
| Losses.AreaValue | util.py:172-173 | the value is in [0, 1]; it is 0 once the box covers the image, 1 - ratio for ratios in [0, 1], and 1 at or below 0 |
| Losses.AreaTermsMonotone | util.py:169-173 | a larger ratio never lowers the weight and never raises the value |
| Losses.AreaLoss | util.py:164-173 | NaN iff no slot is present (the only failure); otherwise masked_nll of 1 - clamp(ratio, 0, 1) weighted by clamp(ratio, 1, 10) |
| Losses.AreaLossFullCover | util.py:164-173 | a single present box exactly covering the image gives nll(0) |
| Losses.AreaLossBetween | util.py:164-173 | if nll maps [0, 1] into [0, hi], a defined area loss lies in [0, 10 * hi] |
| ConvSize.FloorDiv | util.py:227 | numpy `//`: the quotient rounds toward negative infinity for either sign of divisor, and is 0 for a zero divisor |
| ConvSize.ConvOutputDim | util.py:227 | with a positive stride, the last window at (out - 1) * stride fits in the padded input and one more stride would overrun it; a negative stride gives the mirrored inequalities; a zero stride gives 1 |
| ConvSize.ConvOutputDimPositive | util.py:227 | a kernel that fits in the padded input gives at least one output position |
| ConvSize.ConvOutputDimUnique | util.py:227 | the window property determines the output size uniquely |
| ConvSize.ConvOutputSize | util.py:222-228 | one entry per position of numpy's broadcast of the four arguments; where the stride is positive it counts the window positions, where it is zero it is 1 |
| ConvSize.BroadcastExamples | util.py:222-228 | an empty input size with length-1 kernel, padding and stride gives []; a length-1 kernel broadcasts over two input dimensions (28 with kernel 5, padding 2, stride 1 gives 28); lengths 2 and 3 do not broadcast |

## Left out

- `cuda`, `tovar`, `tonumpy`, `toscalar`: device placement and tensor/array conversion, with no numeric content.
- `normalize_contrast`, `torch_normalize_image`, `torch_unnormalize_image`: image preprocessing, not part of the box geometry or losses.
- `anynan`, `anybig`, `check_grads`, `clip_grads`: gradient diagnostics over optimizer parameters. They need autograd state and printing.
- `bbox_to_mask`, `_bbox_to_mask`: rasterisation that calls a scipy image resize, which is not modelled.
- `addbox`: matplotlib plotting.
- `nll`: `-log(x + eps * (x < eps))` is a parameter `real -> real`. Logarithms, the eps guard and any NaN or infinity that nll itself produces are not modelled.
- BoxGeometry.ClampBox: gives the value of `clamp_bbox` only. The gradient effect of `detach` (a gradient of 1 for negative widths) is outside a value model.
- Floating-point rounding, overflow and infinities: reals are exact. The only NaN modelled is the `0/0` in `iou` and `masked_nll`.
- Tensor shapes: boxes are modelled one at a time or as `(batch, nobjs)` grids. General broadcasting over leading dimensions is not modelled, except for `conv_output_size`'s one-dimensional broadcasting.
- Presence is a real and is tested `!= 0`, as the source does. Booleans converted to floats are written out as conditionals.
- `intersection_within` computes `area = h * w` and never uses it, so that value is not modelled.
- Losses.AreaLoss: requires positive `nrows` and `ncols`. Dividing by a zero or negative image area (an infinity or a sign flip in floats) is not modelled.
- MaskedLoss.MaskedNll: its own contract says only that any failure is NaN. What the value means is proved separately, against the reference definition, in MaskedNllIsMeanOfRowMeans.
- Losses.AreaLossBetween: the range is stated only for a non-negative nll, which is what a negative log of a value in [0, 1] gives.
- ConvSize.ConvOutputSize: a scalar argument is written as a one-element list. numpy returns a plain integer when every argument is a scalar; here that is a one-element list. The requires excludes exactly the argument lengths numpy refuses to broadcast (two lengths that differ and are both other than 1), where numpy raises an error.
