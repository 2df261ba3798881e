/**
  Axis-aligned bounding boxes (x, y, w, h) with a top-left origin, and the
  geometry computed on them: the validity check, the non-negativity clamp,
  the intersection area, the intersection rectangle in a local frame, and IoU.
  The tensor code applies each rule element by element over the leading
  dimensions; the model states it for one box (or one pair of boxes).
*/
module BoxGeometry {
  import opened Results
  import opened Numeric

  /** A box: top-left corner (x, y), width w, height h. */
  datatype Box = Box(x: real, y: real, w: real, h: real)

  /** What the validity check asserts: width and height are non-negative. */
  predicate Valid(b: Box) {
    b.w >= 0.0 && b.h >= 0.0
  }

  function Area(b: Box): real {
    b.w * b.h
  }

  /**
    The non-negativity clamp: width and height lose their negative part,
    `w - min(w, 0)`. (In the source the subtracted part is detached from the
    gradient; only the value is modelled.)
  */
  function ClampBox(b: Box): (r: Box)
    ensures r.x == b.x && r.y == b.y
    ensures r.w == Max(b.w, 0.0) && r.h == Max(b.h, 0.0)
    ensures Valid(r)
    ensures Valid(b) ==> r == b
  {
    Box(b.x, b.y, b.w - ClampAbove(b.w, 0.0), b.h - ClampAbove(b.h, 0.0))
  }

  /** A box passes the validity check exactly when the clamp leaves it unchanged. */
  lemma ValidIffClampFixes(b: Box)
    ensures Valid(b) <==> ClampBox(b) == b
  {
    if ClampBox(b) == b {
      assert b.w == Max(b.w, 0.0) && b.h == Max(b.h, 0.0);
    }
  }

  /**
    One axis of the intersection: the length of the overlap of
    [lo1, lo1 + len1] and [lo2, lo2 + len2], clamped at 0.
  */
  function Overlap(lo1: real, len1: real, lo2: real, len2: real): (r: real)
    ensures 0.0 <= r
    ensures r <= Max(len1, 0.0) && r <= Max(len2, 0.0)
    ensures r > 0.0 <==> 0.0 < len1 && 0.0 < len2 && lo1 < lo2 + len2 && lo2 < lo1 + len1
  {
    ClampBelow(Min(lo1 + len1, lo2 + len2) - Max(lo1, lo2), 0.0)
  }

  /** The intersection arithmetic, without the validity checks in front of it. */
  function IntersectionArea(a: Box, b: Box): (r: real)
    ensures r >= 0.0
  {
    Overlap(a.x, a.w, b.x, b.w) * Overlap(a.y, a.h, b.y, b.h)
  }

  lemma ProductBound(p: real, q: real, u: real, v: real)
    requires 0.0 <= p <= u && 0.0 <= q <= v
    ensures p * q <= u * v
  {
    assert p * q <= u * q by {
      assert (u - p) * q >= 0.0;
    }
    assert u * q <= u * v by {
      assert u * (v - q) >= 0.0;
    }
  }

  /**
    `intersection(a, b)`: both boxes must pass the validity check; the area
    of the overlap is then non-negative.
  */
  function Intersection(a: Box, b: Box): (r: Result<real>)
    ensures r.Ok? <==> Valid(a) && Valid(b)
    ensures r.Err? ==> r.fault == InvalidBox
    ensures r.Ok? ==> r.value >= 0.0
  {
    if !Valid(a) || !Valid(b) then Err(InvalidBox)
    else Ok(IntersectionArea(a, b))
  }

  /** The intersection of two valid boxes is at most the area of either. */
  lemma IntersectionBounded(a: Box, b: Box)
    requires Valid(a) && Valid(b)
    ensures 0.0 <= Intersection(a, b).value <= Area(a)
    ensures Intersection(a, b).value <= Area(b)
  {
    var ow := Overlap(a.x, a.w, b.x, b.w);
    var oh := Overlap(a.y, a.h, b.y, b.h);
    ProductBound(ow, oh, a.w, a.h);
    ProductBound(ow, oh, b.w, b.h);
  }

  /**
    `intersection_within(bbox, within)`: the overlap rectangle expressed in
    the local frame of `within` (its origin subtracted), with the local
    corner clamped at 0.
  */
  function IntersectionWithin(bbox: Box, within: Box): (r: Result<Box>)
    ensures r.Ok? <==> Valid(bbox) && Valid(within)
    ensures r.Err? ==> r.fault == InvalidBox
    ensures r.Ok? ==> Valid(r.value) && r.value.x >= 0.0 && r.value.y >= 0.0
    // the clamp of the local corner never changes its value
    ensures r.Ok? ==> r.value.x == Max(bbox.x, within.x) - within.x
    ensures r.Ok? ==> r.value.y == Max(bbox.y, within.y) - within.y
    // each extent is the clamped overlap on that axis, the factor `intersection` multiplies
    ensures r.Ok? ==> r.value.w == Overlap(bbox.x, bbox.w, within.x, within.w)
    ensures r.Ok? ==> r.value.h == Overlap(bbox.y, bbox.h, within.y, within.h)
    // the rectangle has the area that `intersection` reports
    ensures r.Ok? ==> Intersection(bbox, within) == Ok(Area(r.value))
    // a non-empty extent ends inside `within`
    ensures r.Ok? && r.value.w > 0.0 ==> r.value.x + r.value.w <= within.w
    ensures r.Ok? && r.value.h > 0.0 ==> r.value.y + r.value.h <= within.h
  {
    if !Valid(bbox) || !Valid(within) then Err(InvalidBox)
    else
      var x1 := Max(bbox.x, within.x);
      var y1 := Max(bbox.y, within.y);
      var w := Overlap(bbox.x, bbox.w, within.x, within.w);
      var h := Overlap(bbox.y, bbox.h, within.y, within.h);
      var local := Box(ClampBelow(x1 - within.x, 0.0), ClampBelow(y1 - within.y, 0.0), w, h);
      assert IntersectionArea(bbox, within) == w * h;
      assert Area(local) == w * h;
      Ok(local)
  }

  /** `inner`'s extent on one axis lies inside `outer`'s. */
  predicate Inside(lo: real, len: real, outerLo: real, outerLen: real) {
    outerLo <= lo && lo + len <= outerLo + outerLen
  }

  /**
    Moved back to global coordinates, the rectangle `intersection_within`
    returns lies inside both boxes on every axis where it is non-empty.
  */
  lemma IntersectionWithinIsOverlap(bbox: Box, within: Box)
    requires Valid(bbox) && Valid(within)
    ensures var r := IntersectionWithin(bbox, within).value;
            var gx := within.x + r.x;
            var gy := within.y + r.y;
            (r.w > 0.0 ==> Inside(gx, r.w, bbox.x, bbox.w) && Inside(gx, r.w, within.x, within.w))
            && (r.h > 0.0 ==> Inside(gy, r.h, bbox.y, bbox.h) && Inside(gy, r.h, within.y, within.h))
  {
  }

  /** The validity check fails on (0, 0, -1, 2) and passes on (0, 0, 0, 0). */
  lemma ValidityExamples()
    ensures !Valid(Box(0.0, 0.0, -1.0, 2.0)) && Valid(Box(0.0, 0.0, 0.0, 0.0))
    ensures Intersection(Box(0.0, 0.0, -1.0, 2.0), Box(0.0, 0.0, 0.0, 0.0)) == Err(InvalidBox)
    ensures Intersection(Box(0.0, 0.0, 0.0, 0.0), Box(0.0, 0.0, 0.0, 0.0)) == Ok(0.0)
  {
    IntersectionWithSelf(Box(0.0, 0.0, 0.0, 0.0));
  }

  lemma OverlapSymmetric(lo1: real, len1: real, lo2: real, len2: real)
    ensures Overlap(lo1, len1, lo2, len2) == Overlap(lo2, len2, lo1, len1)
  {
  }

  lemma IntersectionSymmetric(a: Box, b: Box)
    ensures Intersection(a, b) == Intersection(b, a)
  {
    OverlapSymmetric(a.x, a.w, b.x, b.w);
    OverlapSymmetric(a.y, a.h, b.y, b.h);
  }

  lemma IntersectionWithSelf(a: Box)
    requires Valid(a)
    ensures Intersection(a, a) == Ok(Area(a))
  {
    assert Overlap(a.x, a.w, a.x, a.w) == a.w;
    assert Overlap(a.y, a.h, a.y, a.h) == a.h;
    assert IntersectionArea(a, a) == a.w * a.h;
  }

  /**
    Two valid boxes have a positive intersection exactly when both have
    positive area and their interiors overlap on both axes; boxes separated
    on either axis (`a.x + a.w <= b.x`, say) intersect in 0.
  */
  lemma IntersectionPositiveIff(a: Box, b: Box)
    requires Valid(a) && Valid(b)
    ensures Intersection(a, b).value > 0.0
        <==> Area(a) > 0.0 && Area(b) > 0.0
             && a.x < b.x + b.w && b.x < a.x + a.w
             && a.y < b.y + b.h && b.y < a.y + a.h
  {
    var ow := Overlap(a.x, a.w, b.x, b.w);
    var oh := Overlap(a.y, a.h, b.y, b.h);
    PositiveProduct(ow, oh);
    PositiveProduct(a.w, a.h);
    PositiveProduct(b.w, b.h);
  }

  lemma PositiveProduct(p: real, q: real)
    requires 0.0 <= p && 0.0 <= q
    ensures p * q > 0.0 <==> p > 0.0 && q > 0.0
  {
    if p > 0.0 && q > 0.0 {
      assert p * q > 0.0;
    } else if p == 0.0 {
      assert p * q == 0.0;
    } else {
      assert q == 0.0;
      assert p * q == 0.0;
    }
  }

  /**
    `iou(a, b)`: intersection over union. Invalid boxes fail the check; the
    denominator `area(a) + area(b) - intersection` is zero exactly when both
    areas are zero, and then the result is 0/0 (NaN), which the source does
    not guard; otherwise the ratio lies in [0, 1].
  */
  function Iou(a: Box, b: Box): (r: Result<real>)
    ensures r == Err(InvalidBox) <==> !Valid(a) || !Valid(b)
    ensures r == Err(NotANumber) <==> Valid(a) && Valid(b) && Area(a) == 0.0 && Area(b) == 0.0
    ensures r.Ok? ==> 0.0 <= r.value <= 1.0
  {
    match Intersection(a, b)
    case Err(f) => Err(f)
    case Ok(i) =>
      IntersectionBounded(a, b);
      var d := Area(a) + Area(b) - i;
      if d == 0.0 then Err(NotANumber)
      else
        RatioBounds(i, d);
        Ok(i / d)
  }

  lemma RatioBounds(i: real, d: real)
    requires 0.0 <= i <= d && d != 0.0
    ensures 0.0 <= i / d <= 1.0
  {
    assert (i / d) * d == i;
  }

  lemma IouSymmetric(a: Box, b: Box)
    ensures Iou(a, b) == Iou(b, a)
  {
    IntersectionSymmetric(a, b);
  }

  lemma IouWithSelf(a: Box)
    requires Valid(a) && Area(a) > 0.0
    ensures Iou(a, a) == Ok(1.0)
  {
    IntersectionWithSelf(a);
    assert Area(a) + Area(a) - Area(a) == Area(a);
    assert Area(a) / Area(a) == 1.0;
  }

  /** IoU is 1 exactly for a box compared with itself. */
  lemma IouOneIffSame(a: Box, b: Box)
    requires Valid(a) && Valid(b) && Area(a) > 0.0
    ensures Iou(a, b) == Ok(1.0) <==> a == b
  {
    if Iou(a, b) == Ok(1.0) {
      IouOneMeansFullOverlap(a, b);
      FullOverlapMeansSame(a, b);
    } else if a == b {
      IouWithSelf(a);
    }
  }

  lemma IouOneMeansFullOverlap(a: Box, b: Box)
    requires Valid(a) && Valid(b) && Iou(a, b) == Ok(1.0)
    ensures IntersectionArea(a, b) == Area(a) && IntersectionArea(a, b) == Area(b)
  {
    var i := IntersectionArea(a, b);
    IntersectionBounded(a, b);
    var d := Area(a) + Area(b) - i;
    assert i / d == 1.0;
    QuotientOne(i, d);
  }

  lemma QuotientOne(i: real, d: real)
    requires d != 0.0 && i / d == 1.0
    ensures i == d
  {
    assert i == (i / d) * d;
  }

  lemma FullOverlapMeansSame(a: Box, b: Box)
    requires Valid(a) && Valid(b) && Area(a) > 0.0
    requires IntersectionArea(a, b) == Area(a) && IntersectionArea(a, b) == Area(b)
    ensures a == b
  {
    var ow := Overlap(a.x, a.w, b.x, b.w);
    var oh := Overlap(a.y, a.h, b.y, b.h);
    FullProduct(ow, oh, a.w, a.h);
    FullProduct(ow, oh, b.w, b.h);
    SameInterval(a.x, a.w, b.x, b.w);
    SameInterval(a.y, a.h, b.y, b.h);
  }

  /** A product of bounded factors reaches its bound only when both factors do. */
  lemma FullProduct(p: real, q: real, u: real, v: real)
    requires 0.0 <= p <= u && 0.0 <= q <= v && p * q == u * v && u * v > 0.0
    ensures p == u && q == v
  {
    PositiveProduct(u, v);
    assert p * q <= p * v by {
      assert p * (v - q) >= 0.0;
    }
    assert p * v <= u * v by {
      assert (u - p) * v >= 0.0;
    }
    assert (u - p) * v == 0.0;
    assert p == u;
    assert u * (v - q) == 0.0;
  }

  /** Two intervals whose overlap is as long as each of them are the same interval. */
  lemma SameInterval(lo1: real, len1: real, lo2: real, len2: real)
    requires 0.0 < len1 && 0.0 < len2
    requires Overlap(lo1, len1, lo2, len2) == len1 == len2
    ensures lo1 == lo2
  {
  }

  /**
    Boxes separated on either axis intersect in 0, and their IoU is 0 unless
    both areas are 0 (then it is NaN).
  */
  lemma SeparatedBoxes(a: Box, b: Box)
    requires Valid(a) && Valid(b)
    requires a.x + a.w <= b.x || b.x + b.w <= a.x || a.y + a.h <= b.y || b.y + b.h <= a.y
    ensures Intersection(a, b) == Ok(0.0)
    ensures Area(a) > 0.0 || Area(b) > 0.0 ==> Iou(a, b) == Ok(0.0)
  {
    IntersectionPositiveIff(a, b);
    var d := Area(a) + Area(b) - 0.0;
    if d != 0.0 {
      assert 0.0 / d == 0.0;
    }
  }
}
