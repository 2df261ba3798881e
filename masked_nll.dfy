/**
  The masked negative-log-likelihood mean `masked_nll(x, presence, weight)`.
  Each slot's loss `nll(x)` is multiplied by its weight (when one is given)
  and by the presence indicator; each batch row is summed and divided by its
  number of present slots (at least 1), rows without a present slot are
  zeroed, and the row results are averaged over the rows that have at least
  one present slot. The negative logarithm itself is the parameter `nll`.
*/
module MaskedLoss {
  import opened Results

  /** A (batch, nobjs) tensor. */
  type Grid = seq<seq<real>>

  predicate SameShape(a: Grid, b: Grid) {
    |a| == |b| && forall i :: 0 <= i < |a| ==> |a[i]| == |b[i]|
  }

  /** The per-slot losses, the presence mask and the optional weights have one shape. */
  predicate WellShaped(x: Grid, presence: Grid, weight: Option<Grid>) {
    SameShape(x, presence) && (weight.Some? ==> SameShape(x, weight.value))
  }

  /** A slot holds a real object: `presence != 0`. */
  predicate Present(p: real) {
    p != 0.0
  }

  /** `(presence != 0).float()` */
  function Indicator(p: real): real {
    if Present(p) then 1.0 else 0.0
  }

  /** `nll(x) * weight` for slot (i, j); no multiplication when there is no weight. */
  function Weighted(nll: real -> real, x: Grid, weight: Option<Grid>, i: nat, j: nat): real
    requires i < |x| && j < |x[i]|
    requires weight.Some? ==> SameShape(x, weight.value)
  {
    if weight.Some? then nll(x[i][j]) * weight.value[i][j] else nll(x[i][j])
  }

  /** Slot (i, j) of `nll_x` after the presence mask: its weighted loss if present, else 0. */
  function MaskedTerm(nll: real -> real, x: Grid, presence: Grid, weight: Option<Grid>, i: nat, j: nat): (r: real)
    requires WellShaped(x, presence, weight) && i < |x| && j < |x[i]|
    ensures r == if Present(presence[i][j]) then Weighted(nll, x, weight, i, j) else 0.0
  {
    Weighted(nll, x, weight, i, j) * Indicator(presence[i][j])
  }

  /** `nll_x.sum(1)[i]`, taken over the first `n` slots of row `i`. */
  function RowSum(nll: real -> real, x: Grid, presence: Grid, weight: Option<Grid>, i: nat, n: nat): real
    requires WellShaped(x, presence, weight) && i < |x| && n <= |x[i]|
  {
    if n == 0 then 0.0
    else RowSum(nll, x, presence, weight, i, n - 1) + MaskedTerm(nll, x, presence, weight, i, n - 1)
  }

  /** `p[i]`: the number of present slots among the first `n` of row `i`. */
  function PresentCount(presence: Grid, i: nat, n: nat): nat
    requires i < |presence| && n <= |presence[i]|
  {
    if n == 0 then 0
    else PresentCount(presence, i, n - 1) + (if Present(presence[i][n - 1]) then 1 else 0)
  }

  /** `_nll[i]`: the row sum divided by `p.clamp(min=1)`, times `(p != 0)`. */
  function RowLoss(nll: real -> real, x: Grid, presence: Grid, weight: Option<Grid>, i: nat): real
    requires WellShaped(x, presence, weight) && i < |x|
  {
    var p := PresentCount(presence, i, |presence[i]|) as real;
    RowSum(nll, x, presence, weight, i, |x[i]|) / (if p < 1.0 then 1.0 else p) * (if p != 0.0 then 1.0 else 0.0)
  }

  /** `_nll.sum()`, over the first `m` rows. */
  function BatchSum(nll: real -> real, x: Grid, presence: Grid, weight: Option<Grid>, m: nat): real
    requires WellShaped(x, presence, weight) && m <= |x|
  {
    if m == 0 then 0.0
    else BatchSum(nll, x, presence, weight, m - 1) + RowLoss(nll, x, presence, weight, m - 1)
  }

  /** `(p != 0).float().sum()`, over the first `m` rows. */
  function NonEmptyRows(presence: Grid, m: nat): nat
    requires m <= |presence|
  {
    if m == 0 then 0
    else NonEmptyRows(presence, m - 1) + (if PresentCount(presence, m - 1, |presence[m - 1]|) != 0 then 1 else 0)
  }

  /**
    `masked_nll(x, presence, weight)`. With no present slot anywhere the
    final division is 0/0, which the source leaves as NaN.
  */
  function MaskedNll(nll: real -> real, x: Grid, presence: Grid, weight: Option<Grid>): (r: Result<real>)
    requires WellShaped(x, presence, weight)
    ensures r.Err? ==> r.fault == NotANumber
  {
    var k := NonEmptyRows(presence, |presence|);
    if k == 0 then Err(NotANumber)
    else Ok(BatchSum(nll, x, presence, weight, |x|) / k as real)
  }

  // ---------------------------------------------------------------------
  // The reference definition: a mean of per-row means over present slots.

  function Sum(s: seq<real>): real {
    if s == [] then 0.0 else Sum(s[..|s| - 1]) + s[|s| - 1]
  }

  function Mean(s: seq<real>): real
    requires s != []
  {
    Sum(s) / |s| as real
  }

  /** The weighted losses of the present slots among the first `n` of row `i`, in order. */
  function PresentLosses(nll: real -> real, x: Grid, presence: Grid, weight: Option<Grid>, i: nat, n: nat): seq<real>
    requires WellShaped(x, presence, weight) && i < |x| && n <= |x[i]|
  {
    if n == 0 then []
    else
      PresentLosses(nll, x, presence, weight, i, n - 1)
      + (if Present(presence[i][n - 1]) then [Weighted(nll, x, weight, i, n - 1)] else [])
  }

  /** The mean present loss of every row, among the first `m`, that has a present slot. */
  function RowMeans(nll: real -> real, x: Grid, presence: Grid, weight: Option<Grid>, m: nat): seq<real>
    requires WellShaped(x, presence, weight) && m <= |x|
  {
    if m == 0 then []
    else
      var ls := PresentLosses(nll, x, presence, weight, m - 1, |x[m - 1]|);
      RowMeans(nll, x, presence, weight, m - 1) + (if ls == [] then [] else [Mean(ls)])
  }

  /**
    The reference masked loss: over the rows with a present slot, the mean of
    each row's mean weighted loss over its present slots; undefined (NaN)
    when no row has a present slot.
  */
  function ReferenceLoss(nll: real -> real, x: Grid, presence: Grid, weight: Option<Grid>): Result<real>
    requires WellShaped(x, presence, weight)
  {
    var ms := RowMeans(nll, x, presence, weight, |x|);
    if ms == [] then Err(NotANumber) else Ok(Mean(ms))
  }

  lemma SumAppend(s: seq<real>, v: real)
    ensures Sum(s + [v]) == Sum(s) + v
  {
    assert (s + [v])[..|s|] == s;
  }

  lemma {:induction false} RowSumIsSumOfPresent(nll: real -> real, x: Grid, presence: Grid, weight: Option<Grid>, i: nat, n: nat)
    requires WellShaped(x, presence, weight) && i < |x| && n <= |x[i]|
    ensures RowSum(nll, x, presence, weight, i, n) == Sum(PresentLosses(nll, x, presence, weight, i, n))
  {
    if n > 0 {
      RowSumIsSumOfPresent(nll, x, presence, weight, i, n - 1);
      var prev := PresentLosses(nll, x, presence, weight, i, n - 1);
      var term := MaskedTerm(nll, x, presence, weight, i, n - 1);
      assert RowSum(nll, x, presence, weight, i, n) == Sum(prev) + term;
      if Present(presence[i][n - 1]) {
        var v := Weighted(nll, x, weight, i, n - 1);
        assert PresentLosses(nll, x, presence, weight, i, n) == prev + [v];
        SumAppend(prev, v);
      } else {
        assert PresentLosses(nll, x, presence, weight, i, n) == prev + [];
        assert prev + [] == prev;
      }
    }
  }

  lemma {:induction false} PresentCountIsLength(nll: real -> real, x: Grid, presence: Grid, weight: Option<Grid>, i: nat, n: nat)
    requires WellShaped(x, presence, weight) && i < |x| && n <= |x[i]|
    ensures PresentCount(presence, i, n) == |PresentLosses(nll, x, presence, weight, i, n)|
  {
    if n > 0 {
      PresentCountIsLength(nll, x, presence, weight, i, n - 1);
    }
  }

  /** A row's result is the mean of its present losses, or 0 when it has none. */
  lemma RowLossIsMean(nll: real -> real, x: Grid, presence: Grid, weight: Option<Grid>, i: nat)
    requires WellShaped(x, presence, weight) && i < |x|
    ensures var ls := PresentLosses(nll, x, presence, weight, i, |x[i]|);
            RowLoss(nll, x, presence, weight, i) == if ls == [] then 0.0 else Mean(ls)
  {
    RowSumIsSumOfPresent(nll, x, presence, weight, i, |x[i]|);
    PresentCountIsLength(nll, x, presence, weight, i, |x[i]|);
  }

  lemma {:induction false} BatchSumIsSumOfRowMeans(nll: real -> real, x: Grid, presence: Grid, weight: Option<Grid>, m: nat)
    requires WellShaped(x, presence, weight) && m <= |x|
    ensures BatchSum(nll, x, presence, weight, m) == Sum(RowMeans(nll, x, presence, weight, m))
  {
    if m > 0 {
      BatchSumIsSumOfRowMeans(nll, x, presence, weight, m - 1);
      RowLossIsMean(nll, x, presence, weight, m - 1);
      var prev := RowMeans(nll, x, presence, weight, m - 1);
      var ls := PresentLosses(nll, x, presence, weight, m - 1, |x[m - 1]|);
      assert BatchSum(nll, x, presence, weight, m) == Sum(prev) + RowLoss(nll, x, presence, weight, m - 1);
      if ls != [] {
        assert RowMeans(nll, x, presence, weight, m) == prev + [Mean(ls)];
        SumAppend(prev, Mean(ls));
      } else {
        assert RowMeans(nll, x, presence, weight, m) == prev + [];
        assert prev + [] == prev;
      }
    }
  }

  lemma {:induction false} NonEmptyRowsIsLength(nll: real -> real, x: Grid, presence: Grid, weight: Option<Grid>, m: nat)
    requires WellShaped(x, presence, weight) && m <= |x|
    ensures NonEmptyRows(presence, m) == |RowMeans(nll, x, presence, weight, m)|
  {
    if m > 0 {
      NonEmptyRowsIsLength(nll, x, presence, weight, m - 1);
      PresentCountIsLength(nll, x, presence, weight, m - 1, |x[m - 1]|);
    }
  }

  /**
    `masked_nll` computes the reference loss: the mean, over the rows with at
    least one present slot, of the row's weighted loss summed over its present
    slots and divided by their number; NaN exactly when no slot is present.
  */
  lemma MaskedNllIsMeanOfRowMeans(nll: real -> real, x: Grid, presence: Grid, weight: Option<Grid>)
    requires WellShaped(x, presence, weight)
    ensures MaskedNll(nll, x, presence, weight) == ReferenceLoss(nll, x, presence, weight)
  {
    BatchSumIsSumOfRowMeans(nll, x, presence, weight, |x|);
    NonEmptyRowsIsLength(nll, x, presence, weight, |x|);
  }

  // ---------------------------------------------------------------------
  // Padding does not affect the result.

  lemma {:induction false} PresentLossesIgnoreAbsent(
    nll: real -> real, x: Grid, x2: Grid, presence: Grid, weight: Option<Grid>, weight2: Option<Grid>, i: nat, n: nat)
    requires WellShaped(x, presence, weight) && WellShaped(x2, presence, weight2)
    requires weight.Some? == weight2.Some?
    requires i < |x| && n <= |x[i]|
    requires forall j | 0 <= j < |x[i]| && Present(presence[i][j]) :: x2[i][j] == x[i][j]
    requires weight.Some? ==> forall j | 0 <= j < |x[i]| && Present(presence[i][j]) :: weight2.value[i][j] == weight.value[i][j]
    ensures PresentLosses(nll, x2, presence, weight2, i, n) == PresentLosses(nll, x, presence, weight, i, n)
  {
    if n > 0 {
      PresentLossesIgnoreAbsent(nll, x, x2, presence, weight, weight2, i, n - 1);
      if Present(presence[i][n - 1]) {
        assert x2[i][n - 1] == x[i][n - 1];
        assert Weighted(nll, x2, weight2, i, n - 1) == Weighted(nll, x, weight, i, n - 1);
      }
    }
  }

  lemma {:induction false} RowMeansIgnoreAbsent(
    nll: real -> real, x: Grid, x2: Grid, presence: Grid, weight: Option<Grid>, weight2: Option<Grid>, m: nat)
    requires WellShaped(x, presence, weight) && WellShaped(x2, presence, weight2)
    requires weight.Some? == weight2.Some?
    requires m <= |x|
    requires forall i, j | 0 <= i < |x| && 0 <= j < |x[i]| && Present(presence[i][j]) :: x2[i][j] == x[i][j]
    requires weight.Some? ==>
      forall i, j | 0 <= i < |x| && 0 <= j < |x[i]| && Present(presence[i][j]) :: weight2.value[i][j] == weight.value[i][j]
    ensures RowMeans(nll, x2, presence, weight2, m) == RowMeans(nll, x, presence, weight, m)
  {
    if m > 0 {
      RowMeansIgnoreAbsent(nll, x, x2, presence, weight, weight2, m - 1);
      PresentLossesIgnoreAbsent(nll, x, x2, presence, weight, weight2, m - 1, |x[m - 1]|);
    }
  }

  /**
    Slots whose presence is 0 do not affect the result: losses and weights
    may differ arbitrarily there.
  */
  lemma MaskedNllIgnoresAbsentSlots(
    nll: real -> real, x: Grid, x2: Grid, presence: Grid, weight: Option<Grid>, weight2: Option<Grid>)
    requires WellShaped(x, presence, weight) && WellShaped(x2, presence, weight2)
    requires weight.Some? == weight2.Some?
    requires forall i, j | 0 <= i < |x| && 0 <= j < |x[i]| && Present(presence[i][j]) :: x2[i][j] == x[i][j]
    requires weight.Some? ==>
      forall i, j | 0 <= i < |x| && 0 <= j < |x[i]| && Present(presence[i][j]) :: weight2.value[i][j] == weight.value[i][j]
    ensures MaskedNll(nll, x2, presence, weight2) == MaskedNll(nll, x, presence, weight)
  {
    MaskedNllIsMeanOfRowMeans(nll, x, presence, weight);
    MaskedNllIsMeanOfRowMeans(nll, x2, presence, weight2);
    RowMeansIgnoreAbsent(nll, x, x2, presence, weight, weight2, |x|);
  }

  /** The weights with one more row, when there are weights. */
  function AppendRow(weight: Option<Grid>, row: seq<real>): Option<Grid> {
    if weight.Some? then Some(weight.value + [row]) else None
  }

  lemma {:induction false} PresentLossesOfSameRow(
    nll: real -> real, x: Grid, presence: Grid, weight: Option<Grid>,
    x2: Grid, presence2: Grid, weight2: Option<Grid>, i: nat, i2: nat, n: nat)
    requires WellShaped(x, presence, weight) && WellShaped(x2, presence2, weight2)
    requires i < |x| && i2 < |x2| && n <= |x[i]|
    requires x2[i2] == x[i] && presence2[i2] == presence[i]
    requires weight2.Some? == weight.Some? && (weight.Some? ==> weight2.value[i2] == weight.value[i])
    ensures PresentLosses(nll, x2, presence2, weight2, i2, n) == PresentLosses(nll, x, presence, weight, i, n)
  {
    if n > 0 {
      PresentLossesOfSameRow(nll, x, presence, weight, x2, presence2, weight2, i, i2, n - 1);
      assert x2[i2][n - 1] == x[i][n - 1] && presence2[i2][n - 1] == presence[i][n - 1];
      assert Weighted(nll, x2, weight2, i2, n - 1) == Weighted(nll, x, weight, i, n - 1);
    }
  }

  lemma {:induction false} RowMeansOfPrefix(
    nll: real -> real, x: Grid, presence: Grid, weight: Option<Grid>, xr: seq<real>, pr: seq<real>, wr: seq<real>, m: nat)
    requires WellShaped(x, presence, weight) && |xr| == |pr| == |wr|
    requires WellShaped(x + [xr], presence + [pr], AppendRow(weight, wr))
    requires m <= |x|
    ensures RowMeans(nll, x + [xr], presence + [pr], AppendRow(weight, wr), m) == RowMeans(nll, x, presence, weight, m)
  {
    if m > 0 {
      RowMeansOfPrefix(nll, x, presence, weight, xr, pr, wr, m - 1);
      PresentLossesOfSameRow(nll, x, presence, weight, x + [xr], presence + [pr], AppendRow(weight, wr), m - 1, m - 1, |x[m - 1]|);
    }
  }

  lemma {:induction false} NoPresentLosses(nll: real -> real, x: Grid, presence: Grid, weight: Option<Grid>, i: nat, n: nat)
    requires WellShaped(x, presence, weight) && i < |x| && n <= |x[i]|
    requires forall j | 0 <= j < n :: !Present(presence[i][j])
    ensures PresentLosses(nll, x, presence, weight, i, n) == []
  {
    if n > 0 {
      NoPresentLosses(nll, x, presence, weight, i, n - 1);
    }
  }

  /** A batch row with no present slot does not change the result. */
  lemma MaskedNllIgnoresEmptyRow(
    nll: real -> real, x: Grid, presence: Grid, weight: Option<Grid>, xr: seq<real>, pr: seq<real>, wr: seq<real>)
    requires WellShaped(x, presence, weight) && |xr| == |pr| == |wr|
    requires forall j | 0 <= j < |pr| :: !Present(pr[j])
    ensures WellShaped(x + [xr], presence + [pr], AppendRow(weight, wr))
    ensures MaskedNll(nll, x + [xr], presence + [pr], AppendRow(weight, wr)) == MaskedNll(nll, x, presence, weight)
  {
    var x2, p2, w2 := x + [xr], presence + [pr], AppendRow(weight, wr);
    assert WellShaped(x2, p2, w2);
    MaskedNllIsMeanOfRowMeans(nll, x, presence, weight);
    MaskedNllIsMeanOfRowMeans(nll, x2, p2, w2);
    RowMeansOfPrefix(nll, x, presence, weight, xr, pr, wr, |x|);
    NoPresentLosses(nll, x2, p2, w2, |x|, |xr|);
    assert RowMeans(nll, x2, p2, w2, |x2|) == RowMeans(nll, x2, p2, w2, |x|);
  }

  // ---------------------------------------------------------------------
  // When the result is NaN, and what range it lies in.

  lemma {:induction false} PresentCountZero(presence: Grid, i: nat, n: nat)
    requires i < |presence| && n <= |presence[i]|
    ensures PresentCount(presence, i, n) == 0 <==> forall j | 0 <= j < n :: !Present(presence[i][j])
  {
    if n > 0 {
      PresentCountZero(presence, i, n - 1);
    }
  }

  lemma {:induction false} NonEmptyRowsZero(presence: Grid, m: nat)
    requires m <= |presence|
    ensures NonEmptyRows(presence, m) == 0
        <==> forall i, j | 0 <= i < m && 0 <= j < |presence[i]| :: !Present(presence[i][j])
  {
    if m > 0 {
      NonEmptyRowsZero(presence, m - 1);
      PresentCountZero(presence, m - 1, |presence[m - 1]|);
    }
  }

  /** The result is NaN exactly when no slot of the batch is present. */
  lemma MaskedNllUndefinedIff(nll: real -> real, x: Grid, presence: Grid, weight: Option<Grid>)
    requires WellShaped(x, presence, weight)
    ensures MaskedNll(nll, x, presence, weight).Err?
        <==> forall i, j | 0 <= i < |presence| && 0 <= j < |presence[i]| :: !Present(presence[i][j])
  {
    NonEmptyRowsZero(presence, |presence|);
  }

  /** Every term of `s` lies in [lo, hi]. */
  predicate AllBetween(s: seq<real>, lo: real, hi: real) {
    forall k | 0 <= k < |s| :: lo <= s[k] <= hi
  }

  lemma AllBetweenAppend(s: seq<real>, v: real, lo: real, hi: real)
    requires AllBetween(s, lo, hi) && lo <= v <= hi
    ensures AllBetween(s + [v], lo, hi)
  {
  }

  lemma {:induction false} SumBetween(s: seq<real>, lo: real, hi: real)
    requires AllBetween(s, lo, hi)
    ensures |s| as real * lo <= Sum(s) <= |s| as real * hi
  {
    if s != [] {
      var init, last := s[..|s| - 1], s[|s| - 1];
      SumBetween(init, lo, hi);
      var n := |init| as real;
      assert Sum(s) == Sum(init) + last;
      assert |s| as real * lo == n * lo + lo;
      assert |s| as real * hi == n * hi + hi;
    }
  }

  /** A mean lies between the bounds of its terms. */
  lemma MeanBetween(s: seq<real>, lo: real, hi: real)
    requires s != [] && AllBetween(s, lo, hi)
    ensures lo <= Mean(s) <= hi
  {
    SumBetween(s, lo, hi);
    var n := |s| as real;
    assert Mean(s) - lo == (Sum(s) - n * lo) / n;
    assert hi - Mean(s) == (n * hi - Sum(s)) / n;
  }

  lemma {:induction false} PresentLossesBetween(
    nll: real -> real, x: Grid, presence: Grid, weight: Option<Grid>, i: nat, n: nat, lo: real, hi: real)
    requires WellShaped(x, presence, weight) && i < |x| && n <= |x[i]|
    requires forall j | 0 <= j < |x[i]| && Present(presence[i][j]) :: lo <= Weighted(nll, x, weight, i, j) <= hi
    ensures AllBetween(PresentLosses(nll, x, presence, weight, i, n), lo, hi)
  {
    if n > 0 {
      PresentLossesBetween(nll, x, presence, weight, i, n - 1, lo, hi);
      var prev := PresentLosses(nll, x, presence, weight, i, n - 1);
      if Present(presence[i][n - 1]) {
        AllBetweenAppend(prev, Weighted(nll, x, weight, i, n - 1), lo, hi);
      } else {
        assert PresentLosses(nll, x, presence, weight, i, n) == prev;
      }
    }
  }

  lemma {:induction false} RowMeansBetween(
    nll: real -> real, x: Grid, presence: Grid, weight: Option<Grid>, m: nat, lo: real, hi: real)
    requires WellShaped(x, presence, weight) && m <= |x|
    requires forall i, j | 0 <= i < |x| && 0 <= j < |x[i]| && Present(presence[i][j]) ::
      lo <= Weighted(nll, x, weight, i, j) <= hi
    ensures AllBetween(RowMeans(nll, x, presence, weight, m), lo, hi)
  {
    if m > 0 {
      RowMeansBetween(nll, x, presence, weight, m - 1, lo, hi);
      var ls := PresentLosses(nll, x, presence, weight, m - 1, |x[m - 1]|);
      PresentLossesBetween(nll, x, presence, weight, m - 1, |x[m - 1]|, lo, hi);
      var prev := RowMeans(nll, x, presence, weight, m - 1);
      if ls != [] {
        MeanBetween(ls, lo, hi);
        AllBetweenAppend(prev, Mean(ls), lo, hi);
      } else {
        assert RowMeans(nll, x, presence, weight, m) == prev;
      }
    }
  }

  /**
    The result is an average: when every present slot's weighted loss lies
    in [lo, hi], so does the result.
  */
  lemma MaskedNllBetween(nll: real -> real, x: Grid, presence: Grid, weight: Option<Grid>, lo: real, hi: real)
    requires WellShaped(x, presence, weight)
    requires forall i, j | 0 <= i < |x| && 0 <= j < |x[i]| && Present(presence[i][j]) ::
      lo <= Weighted(nll, x, weight, i, j) <= hi
    ensures MaskedNll(nll, x, presence, weight).Ok? ==> lo <= MaskedNll(nll, x, presence, weight).value <= hi
  {
    MaskedNllIsMeanOfRowMeans(nll, x, presence, weight);
    var ms := RowMeans(nll, x, presence, weight, |x|);
    RowMeansBetween(nll, x, presence, weight, |x|, lo, hi);
    if ms != [] {
      MeanBetween(ms, lo, hi);
    }
  }

  lemma SingletonMean(v: real)
    ensures Mean([v]) == v
  {
    assert [v][..0] == [];
    assert Sum([v]) == Sum([]) + v;
  }

  lemma ExampleRowMeans(nll: real -> real)
    ensures RowMeans(nll, [[0.5, 0.9], [0.3, 0.7]], [[1.0, 0.0], [0.0, 0.0]], None, 2) == [nll(0.5)]
  {
    var x: Grid, p: Grid := [[0.5, 0.9], [0.3, 0.7]], [[1.0, 0.0], [0.0, 0.0]];
    assert PresentLosses(nll, x, p, None, 0, 1) == [nll(0.5)];
    assert PresentLosses(nll, x, p, None, 0, 2) == [nll(0.5)];
    NoPresentLosses(nll, x, p, None, 1, 2);
    SingletonMean(nll(0.5));
    assert RowMeans(nll, x, p, None, 1) == [nll(0.5)];
  }

  /**
    With presence [[1, 0], [0, 0]] and losses [[0.5, 0.9], [0.3, 0.7]] only
    the first slot counts: the result is `nll(0.5)`.
  */
  lemma MaskedNllExample(nll: real -> real)
    ensures MaskedNll(nll, [[0.5, 0.9], [0.3, 0.7]], [[1.0, 0.0], [0.0, 0.0]], None) == Ok(nll(0.5))
  {
    MaskedNllIsMeanOfRowMeans(nll, [[0.5, 0.9], [0.3, 0.7]], [[1.0, 0.0], [0.0, 0.0]], None);
    ExampleRowMeans(nll);
    SingletonMean(nll(0.5));
  }
}
