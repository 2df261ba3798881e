/**
  The box losses fed through `masked_nll`: `iou_loss`, `intersection_loss`
  (intersection over target area, with the zero-area guard) and `area_loss`
  (predicted area over image area, clamped into a weight and a value).
  Boxes come as a (batch, nobjs) grid; each per-slot quantity is the
  one-box rule applied slot by slot.
*/
module Losses {
  import opened Results
  import opened Numeric
  import opened BoxGeometry
  import opened MaskedLoss

  /** A (batch, nobjs) tensor of boxes. */
  type BoxGrid = seq<seq<Box>>

  predicate SameBoxShape(a: BoxGrid, b: BoxGrid) {
    |a| == |b| && forall i :: 0 <= i < |a| ==> |a[i]| == |b[i]|
  }

  /** The shape of a box grid agrees with that of a real grid. */
  predicate ShapedLike(a: BoxGrid, g: Grid) {
    |a| == |g| && forall i :: 0 <= i < |a| ==> |a[i]| == |g[i]|
  }

  /** The validity check over a whole tensor: every box passes. */
  predicate AllValid(a: BoxGrid) {
    forall i, j | 0 <= i < |a| && 0 <= j < |a[i]| :: Valid(a[i][j])
  }

  /** No slot has a present object. */
  predicate NonePresent(presence: Grid) {
    forall i, j | 0 <= i < |presence| && 0 <= j < |presence[i]| :: !Present(presence[i][j])
  }

  // ---------------------------------------------------------------------
  // iou_loss

  /** Some slot compares two zero-area boxes, so its IoU is 0/0. */
  predicate SomeIouNaN(a: BoxGrid, b: BoxGrid)
    requires SameBoxShape(a, b)
  {
    exists i, j | 0 <= i < |a| && 0 <= j < |a[i]| :: Iou(a[i][j], b[i][j]) == Err(NotANumber)
  }

  /** The IoU of every slot, when every slot has one. */
  function IouGrid(a: BoxGrid, b: BoxGrid): (g: Grid)
    requires SameBoxShape(a, b) && AllValid(a) && AllValid(b) && !SomeIouNaN(a, b)
    ensures ShapedLike(a, g)
    ensures forall i, j | 0 <= i < |a| && 0 <= j < |a[i]| :: Iou(a[i][j], b[i][j]) == Ok(g[i][j])
  {
    seq(|a|, i requires 0 <= i < |a| =>
      seq(|a[i]|, j requires 0 <= j < |a[i]| => Iou(a[i][j], b[i][j]).value))
  }

  /**
    `iou_loss(a, b, presence)`: `masked_nll(iou(a, b), presence)`. A NaN IoU
    in any slot, present or not, makes the whole loss NaN: `nll(NaN)` is
    NaN and so is NaN times the zero mask.
  */
  function IouLoss(nll: real -> real, a: BoxGrid, b: BoxGrid, presence: Grid): (r: Result<real>)
    requires SameBoxShape(a, b) && ShapedLike(a, presence)
    ensures r == Err(InvalidBox) <==> !AllValid(a) || !AllValid(b)
    ensures r == Err(NotANumber)
        <==> AllValid(a) && AllValid(b) && (SomeIouNaN(a, b) || NonePresent(presence))
    ensures r.Ok? ==> r == MaskedNll(nll, IouGrid(a, b), presence, None)
  {
    if !AllValid(a) || !AllValid(b) then Err(InvalidBox)
    else if SomeIouNaN(a, b) then Err(NotANumber)
    else
      var g := IouGrid(a, b);
      MaskedNllUndefinedIff(nll, g, presence, None);
      MaskedNll(nll, g, presence, None)
  }

  /**
    A padded slot holding two all-zero boxes poisons the loss: it is NaN
    even though the slot's presence is 0.
  */
  lemma IouLossNaNFromPadding(nll: real -> real, a: BoxGrid, b: BoxGrid, presence: Grid, i: nat, j: nat)
    requires SameBoxShape(a, b) && ShapedLike(a, presence) && AllValid(a) && AllValid(b)
    requires i < |a| && j < |a[i]| && a[i][j] == Box(0.0, 0.0, 0.0, 0.0) && b[i][j] == Box(0.0, 0.0, 0.0, 0.0)
    ensures IouLoss(nll, a, b, presence) == Err(NotANumber)
  {
    assert Iou(a[i][j], b[i][j]) == Err(NotANumber);
  }

  /** With every box valid and no zero-area pair, the IoU loss averages values of `nll` on [0, 1]. */
  lemma IouLossBetween(nll: real -> real, a: BoxGrid, b: BoxGrid, presence: Grid, lo: real, hi: real)
    requires SameBoxShape(a, b) && ShapedLike(a, presence)
    requires forall v: real | 0.0 <= v <= 1.0 :: lo <= nll(v) <= hi
    ensures IouLoss(nll, a, b, presence).Ok? ==> lo <= IouLoss(nll, a, b, presence).value <= hi
  {
    if IouLoss(nll, a, b, presence).Ok? {
      var g := IouGrid(a, b);
      forall i, j | 0 <= i < |g| && 0 <= j < |g[i]| && Present(presence[i][j])
        ensures lo <= Weighted(nll, g, None, i, j) <= hi
      {
        assert Iou(a[i][j], b[i][j]) == Ok(g[i][j]);
      }
      MaskedNllBetween(nll, g, presence, None, lo, hi);
    }
  }

  // ---------------------------------------------------------------------
  // intersection_loss

  /**
    One slot of `intersection_loss`: the intersection divided by
    `area * (area != 0) + (area == 0)`, so a zero target area divides by 1
    and leaves the raw intersection.
  */
  function Coverage(pred: Box, target: Box): (r: real)
    ensures Area(target) != 0.0 ==> r * Area(target) == IntersectionArea(pred, target)
    ensures Area(target) == 0.0 ==> r == IntersectionArea(pred, target)
  {
    var area := Area(target);
    IntersectionArea(pred, target) / (area * (if area != 0.0 then 1.0 else 0.0) + (if area == 0.0 then 1.0 else 0.0))
  }

  /** For valid boxes the guarded ratio lies in [0, 1], and a zero-area target gives 0. */
  lemma CoverageBounds(pred: Box, target: Box)
    requires Valid(pred) && Valid(target)
    ensures 0.0 <= Coverage(pred, target) <= 1.0
    ensures Area(target) == 0.0 ==> Coverage(pred, target) == 0.0
  {
    IntersectionBounded(pred, target);
    if Area(target) != 0.0 {
      RatioBounds(IntersectionArea(pred, target), Area(target));
    }
  }

  function CoverageGrid(pred: BoxGrid, target: BoxGrid): (g: Grid)
    requires SameBoxShape(pred, target)
    ensures ShapedLike(pred, g)
    ensures forall i, j | 0 <= i < |pred| && 0 <= j < |pred[i]| :: g[i][j] == Coverage(pred[i][j], target[i][j])
  {
    seq(|pred|, i requires 0 <= i < |pred| =>
      seq(|pred[i]|, j requires 0 <= j < |pred[i]| => Coverage(pred[i][j], target[i][j])))
  }

  /**
    `intersection_loss(pred, target, presence)`. The zero-area guard keeps
    every slot finite, so once the boxes pass the check the only NaN left is
    a batch with no present slot.
  */
  function IntersectionLoss(nll: real -> real, pred: BoxGrid, target: BoxGrid, presence: Grid): (r: Result<real>)
    requires SameBoxShape(pred, target) && ShapedLike(pred, presence)
    ensures r == Err(InvalidBox) <==> !AllValid(pred) || !AllValid(target)
    ensures r == Err(NotANumber) <==> AllValid(pred) && AllValid(target) && NonePresent(presence)
    ensures r.Ok? ==> r == MaskedNll(nll, CoverageGrid(pred, target), presence, None)
  {
    if !AllValid(pred) || !AllValid(target) then Err(InvalidBox)
    else
      var g := CoverageGrid(pred, target);
      MaskedNllUndefinedIff(nll, g, presence, None);
      MaskedNll(nll, g, presence, None)
  }

  /** With valid boxes, the intersection loss averages values of `nll` on [0, 1]. */
  lemma IntersectionLossBetween(nll: real -> real, pred: BoxGrid, target: BoxGrid, presence: Grid, lo: real, hi: real)
    requires SameBoxShape(pred, target) && ShapedLike(pred, presence)
    requires forall v: real | 0.0 <= v <= 1.0 :: lo <= nll(v) <= hi
    ensures IntersectionLoss(nll, pred, target, presence).Ok? ==>
      lo <= IntersectionLoss(nll, pred, target, presence).value <= hi
  {
    if IntersectionLoss(nll, pred, target, presence).Ok? {
      var g := CoverageGrid(pred, target);
      forall i, j | 0 <= i < |g| && 0 <= j < |g[i]| && Present(presence[i][j])
        ensures lo <= Weighted(nll, g, None, i, j) <= hi
      {
        CoverageBounds(pred[i][j], target[i][j]);
      }
      MaskedNllBetween(nll, g, presence, None, lo, hi);
    }
  }

  // ---------------------------------------------------------------------
  // area_loss

  /** `torch.clamp(ratio, 1, 10)`: the weight that emphasises over-coverage. */
  function AreaWeight(ratio: real): (w: real)
    ensures 1.0 <= w <= 10.0
    ensures ratio <= 1.0 ==> w == 1.0
    ensures 1.0 <= ratio <= 10.0 ==> w == ratio
    ensures ratio >= 10.0 ==> w == 10.0
  {
    Clamp(ratio, 1.0, 10.0)
  }

  /** `1 - torch.clamp(ratio, 0, 1)`: the value fed to the loss. */
  function AreaValue(ratio: real): (v: real)
    ensures 0.0 <= v <= 1.0
    ensures ratio >= 1.0 ==> v == 0.0
    ensures 0.0 <= ratio <= 1.0 ==> v == 1.0 - ratio
    ensures ratio <= 0.0 ==> v == 1.0
  {
    1.0 - Clamp(ratio, 0.0, 1.0)
  }

  /** A larger ratio never gets a smaller weight or a larger value. */
  lemma AreaTermsMonotone(r1: real, r2: real)
    requires r1 <= r2
    ensures AreaWeight(r1) <= AreaWeight(r2)
    ensures AreaValue(r1) >= AreaValue(r2)
  {
  }

  /** `pred.w * pred.h / (nrows * ncols)` */
  function AreaRatio(b: Box, nrows: real, ncols: real): real
    requires nrows > 0.0 && ncols > 0.0
  {
    Area(b) / (nrows * ncols)
  }

  function AreaValues(pred: BoxGrid, nrows: real, ncols: real): (g: Grid)
    requires nrows > 0.0 && ncols > 0.0
    ensures ShapedLike(pred, g)
    ensures forall i, j | 0 <= i < |pred| && 0 <= j < |pred[i]| ::
      g[i][j] == AreaValue(AreaRatio(pred[i][j], nrows, ncols))
  {
    seq(|pred|, i requires 0 <= i < |pred| =>
      seq(|pred[i]|, j requires 0 <= j < |pred[i]| => AreaValue(AreaRatio(pred[i][j], nrows, ncols))))
  }

  function AreaWeights(pred: BoxGrid, nrows: real, ncols: real): (g: Grid)
    requires nrows > 0.0 && ncols > 0.0
    ensures ShapedLike(pred, g)
    ensures forall i, j | 0 <= i < |pred| && 0 <= j < |pred[i]| ::
      g[i][j] == AreaWeight(AreaRatio(pred[i][j], nrows, ncols))
  {
    seq(|pred|, i requires 0 <= i < |pred| =>
      seq(|pred[i]|, j requires 0 <= j < |pred[i]| => AreaWeight(AreaRatio(pred[i][j], nrows, ncols))))
  }

  /**
    `area_loss(pred, nrows, ncols, presence)`: `masked_nll(1 - clamp(ratio, 0, 1),
    presence, clamp(ratio, 1, 10))`. There is no validity check; NaN only
    when no slot is present.
  */
  function AreaLoss(nll: real -> real, pred: BoxGrid, nrows: real, ncols: real, presence: Grid): (r: Result<real>)
    requires nrows > 0.0 && ncols > 0.0 && ShapedLike(pred, presence)
    ensures r.Err? <==> NonePresent(presence)
    ensures r.Err? ==> r.fault == NotANumber
    ensures r.Ok? ==> r == MaskedNll(nll, AreaValues(pred, nrows, ncols), presence, Some(AreaWeights(pred, nrows, ncols)))
  {
    var values := AreaValues(pred, nrows, ncols);
    var weights := AreaWeights(pred, nrows, ncols);
    MaskedNllUndefinedIff(nll, values, presence, Some(weights));
    MaskedNll(nll, values, presence, Some(weights))
  }

  /**
    A single present box covering exactly the whole image has ratio 1: its
    value is 0 with weight 1, and the loss is `nll(0)`.
  */
  lemma AreaLossFullCover(nll: real -> real, b: Box, nrows: real, ncols: real)
    requires nrows > 0.0 && ncols > 0.0 && Area(b) == nrows * ncols
    ensures AreaLoss(nll, [[b]], nrows, ncols, [[1.0]]) == Ok(nll(0.0))
  {
    var values := AreaValues([[b]], nrows, ncols);
    var weights := AreaWeights([[b]], nrows, ncols);
    assert AreaRatio(b, nrows, ncols) == 1.0;
    assert values[0][0] == 0.0 && weights[0][0] == 1.0;
    MaskedNllIsMeanOfRowMeans(nll, values, [[1.0]], Some(weights));
    assert Weighted(nll, values, Some(weights), 0, 0) == nll(0.0);
    assert PresentLosses(nll, values, [[1.0]], Some(weights), 0, 1) == [nll(0.0)];
    SingletonMean(nll(0.0));
    assert RowMeans(nll, values, [[1.0]], Some(weights), 1) == [nll(0.0)];
  }

  /**
    The area loss averages `nll(v) * w` with v in [0, 1] and w in [1, 10]:
    when `nll` maps [0, 1] into [0, hi], the loss lies in [0, 10 * hi].
  */
  lemma AreaLossBetween(nll: real -> real, pred: BoxGrid, nrows: real, ncols: real, presence: Grid, hi: real)
    requires nrows > 0.0 && ncols > 0.0 && ShapedLike(pred, presence)
    requires forall v: real | 0.0 <= v <= 1.0 :: 0.0 <= nll(v) <= hi
    ensures AreaLoss(nll, pred, nrows, ncols, presence).Ok? ==>
      0.0 <= AreaLoss(nll, pred, nrows, ncols, presence).value <= 10.0 * hi
  {
    var values := AreaValues(pred, nrows, ncols);
    var weights := AreaWeights(pred, nrows, ncols);
    forall i, j | 0 <= i < |values| && 0 <= j < |values[i]| && Present(presence[i][j])
      ensures 0.0 <= Weighted(nll, values, Some(weights), i, j) <= 10.0 * hi
    {
      var ratio := AreaRatio(pred[i][j], nrows, ncols);
      assert values[i][j] == AreaValue(ratio) && weights[i][j] == AreaWeight(ratio);
      ProductBound(nll(values[i][j]), weights[i][j], hi, 10.0);
      assert hi * 10.0 == 10.0 * hi;
    }
    MaskedNllBetween(nll, values, presence, Some(weights), 0.0, 10.0 * hi);
  }
}
