/**
 * Intersection over union of axis-aligned boxes in corner form
 * `(x1, y1, x2, y2)`, as `batch_iou` computes it for every pair of rows.
 */
module BoxIou {

  datatype Box = Box(x1: real, y1: real, x2: real, y2: real)

  function Max(a: real, b: real): real { if a >= b then a else b }
  function Min(a: real, b: real): real { if a <= b then a else b }

  /** `(x2 - x1) * (y2 - y1)`; positive for the boxes suppression is defined on. */
  function Area(b: Box): real
  {
    (b.x2 - b.x1) * (b.y2 - b.y1)
  }

  predicate PositiveArea(b: Box)
  {
    b.x1 < b.x2 && b.y1 < b.y2
  }

  /** `max(0, x)`: numpy's `clip(..., a_min=0)`. */
  function ClipAtZero(x: real): (r: real)
    ensures r >= 0.0 && r >= x
    ensures x >= 0.0 ==> r == x
  {
    if x >= 0.0 then x else 0.0
  }

  /** Width and height of the overlap, each clipped at zero. */
  function OverlapWidth(a: Box, b: Box): real
  {
    ClipAtZero(Min(a.x2, b.x2) - Max(a.x1, b.x1))
  }

  function OverlapHeight(a: Box, b: Box): real
  {
    ClipAtZero(Min(a.y2, b.y2) - Max(a.y1, b.y1))
  }

  /** The overlap's extents never exceed either box's extents. */
  lemma OverlapWithin(a: Box, b: Box)
    requires PositiveArea(a) && PositiveArea(b)
    ensures 0.0 <= OverlapWidth(a, b) <= a.x2 - a.x1 && OverlapWidth(a, b) <= b.x2 - b.x1
    ensures 0.0 <= OverlapHeight(a, b) <= a.y2 - a.y1 && OverlapHeight(a, b) <= b.y2 - b.y1
  {
  }

  function Intersection(a: Box, b: Box): real
  {
    OverlapWidth(a, b) * OverlapHeight(a, b)
  }

  /** 0 <= p <= P and 0 <= q <= Q give p * q <= P * Q. */
  lemma MulMonotone(p: real, bigP: real, q: real, bigQ: real)
    requires 0.0 <= p <= bigP && 0.0 <= q <= bigQ
    ensures 0.0 <= p * q <= bigP * bigQ
  {
    assert p * q <= bigP * q;
    assert bigP * q <= bigP * bigQ;
  }

  lemma MulPositive(p: real, q: real)
    requires p > 0.0 && q > 0.0
    ensures p * q > 0.0
  {
  }

  lemma AreaPositive(a: Box)
    requires PositiveArea(a)
    ensures Area(a) > 0.0
  {
    MulPositive(a.x2 - a.x1, a.y2 - a.y1);
  }

  /** The arithmetic behind the bounds on the intersection, on plain numbers. */
  lemma ProductBounds(w: real, h: real, aw: real, ah: real, bw: real, bh: real)
    requires 0.0 <= w <= aw && w <= bw && 0.0 <= h <= ah && h <= bh
    requires aw > 0.0 && ah > 0.0 && bw > 0.0 && bh > 0.0
    ensures 0.0 <= w * h <= aw * ah && w * h <= bw * bh
    ensures aw * ah > 0.0 && bw * bh > 0.0
  {
    MulMonotone(w, aw, h, ah);
    MulMonotone(w, bw, h, bh);
    MulPositive(aw, ah);
    MulPositive(bw, bh);
  }

  /** The intersection lies between zero and the smaller of the two areas. */
  lemma IntersectionBounds(a: Box, b: Box)
    requires PositiveArea(a) && PositiveArea(b)
    ensures 0.0 <= Intersection(a, b) <= Area(a)
    ensures Intersection(a, b) <= Area(b)
    ensures Area(a) > 0.0 && Area(b) > 0.0
  {
    OverlapWithin(a, b);
    AreaPositive(a);
    AreaPositive(b);
    ProductBounds(OverlapWidth(a, b), OverlapHeight(a, b),
                  a.x2 - a.x1, a.y2 - a.y1, b.x2 - b.x1, b.y2 - b.y1);
  }

  /** The union's area: the two areas minus the part counted twice. */
  function Union(a: Box, b: Box): (u: real)
    requires PositiveArea(a) && PositiveArea(b)
    ensures u >= Area(a) && u >= Area(b) && u > 0.0
    ensures u >= Intersection(a, b)
  {
    IntersectionBounds(a, b);
    Area(a) + Area(b) - Intersection(a, b)
  }

  /** One entry of `batch_iou`: intersection divided by union. */
  function Iou(a: Box, b: Box): (r: real)
    requires PositiveArea(a) && PositiveArea(b)
  {
    Intersection(a, b) / Union(a, b)
  }

  /** 0 <= n <= d with d > 0 gives a quotient in [0, 1]. */
  lemma FractionInUnit(n: real, d: real)
    requires 0.0 <= n <= d && d > 0.0
    ensures 0.0 <= n / d <= 1.0
  {
    assert n / d * d == n;
  }

  lemma {:induction false} IouBounds(a: Box, b: Box)
    requires PositiveArea(a) && PositiveArea(b)
    ensures 0.0 <= Iou(a, b) <= 1.0
  {
    IntersectionBounds(a, b);
    FractionInUnit(Intersection(a, b), Union(a, b));
  }

  lemma IouSymmetric(a: Box, b: Box)
    requires PositiveArea(a) && PositiveArea(b)
    ensures Iou(a, b) == Iou(b, a)
  {
    assert OverlapWidth(a, b) == OverlapWidth(b, a) by {
      assert Min(a.x2, b.x2) == Min(b.x2, a.x2) && Max(a.x1, b.x1) == Max(b.x1, a.x1);
    }
    assert OverlapHeight(a, b) == OverlapHeight(b, a) by {
      assert Min(a.y2, b.y2) == Min(b.y2, a.y2) && Max(a.y1, b.y1) == Max(b.y1, a.y1);
    }
    assert Intersection(a, b) == Intersection(b, a);
    assert Union(a, b) == Union(b, a);
  }

  /** A box overlaps itself completely. */
  lemma {:induction false} IouSelf(a: Box)
    requires PositiveArea(a)
    ensures Iou(a, a) == 1.0
  {
    assert OverlapWidth(a, a) == a.x2 - a.x1;
    assert OverlapHeight(a, a) == a.y2 - a.y1;
    assert Intersection(a, a) == Area(a);
    IntersectionBounds(a, a);
    assert Union(a, a) == Area(a);
    SelfQuotient(Area(a));
  }

  lemma SelfQuotient(d: real)
    requires d > 0.0
    ensures d / d == 1.0
  {
  }

  /** Boxes separated along either axis do not overlap at all. */
  predicate Disjoint(a: Box, b: Box)
  {
    a.x2 <= b.x1 || b.x2 <= a.x1 || a.y2 <= b.y1 || b.y2 <= a.y1
  }

  lemma {:induction false} IouDisjointZero(a: Box, b: Box)
    requires PositiveArea(a) && PositiveArea(b)
    requires Disjoint(a, b)
    ensures Iou(a, b) == 0.0
  {
    assert OverlapWidth(a, b) == 0.0 || OverlapHeight(a, b) == 0.0;
    assert Intersection(a, b) == 0.0;
  }

  /** Stretching both boxes by the same positive factors along each axis. */
  function ScaleBox(b: Box, sx: real, sy: real): Box
  {
    Box(b.x1 * sx, b.y1 * sy, b.x2 * sx, b.y2 * sy)
  }

  /** Stretching by positive factors keeps a box's corners in order. */
  lemma ScalePreservesOrder(b: Box, sx: real, sy: real)
    requires PositiveArea(b) && sx > 0.0 && sy > 0.0
    ensures PositiveArea(ScaleBox(b, sx, sy))
  {
    MulPositive(b.x2 - b.x1, sx);
    MulPositive(b.y2 - b.y1, sy);
    assert b.x2 * sx - b.x1 * sx == (b.x2 - b.x1) * sx;
    assert b.y2 * sy - b.y1 * sy == (b.y2 - b.y1) * sy;
  }

  /** `batch_iou(these, those)`: the matrix of IoU between every pair. */
  function BatchIou(these: seq<Box>, those: seq<Box>): (m: seq<seq<real>>)
    requires forall i :: 0 <= i < |these| ==> PositiveArea(these[i])
    requires forall j :: 0 <= j < |those| ==> PositiveArea(those[j])
    ensures |m| == |these|
    ensures forall i :: 0 <= i < |these| ==> |m[i]| == |those|
    ensures forall i, j :: 0 <= i < |these| && 0 <= j < |those| ==> m[i][j] == Iou(these[i], those[j])
  {
    seq(|these|, i requires 0 <= i < |these| =>
      seq(|those|, j requires 0 <= j < |those| => Iou(these[i], those[j])))
  }

  /** The matrix of a list against itself: symmetric, ones on the diagonal, entries in [0, 1]. */
  lemma {:induction false} BatchIouSelf(boxes: seq<Box>)
    requires forall i :: 0 <= i < |boxes| ==> PositiveArea(boxes[i])
    ensures var m := BatchIou(boxes, boxes);
      (forall i, j :: 0 <= i < |boxes| && 0 <= j < |boxes| ==> m[i][j] == m[j][i] && 0.0 <= m[i][j] <= 1.0) &&
      (forall i :: 0 <= i < |boxes| ==> m[i][i] == 1.0)
  {
    var m := BatchIou(boxes, boxes);
    forall i, j | 0 <= i < |boxes| && 0 <= j < |boxes|
      ensures m[i][j] == m[j][i] && 0.0 <= m[i][j] <= 1.0
    {
      IouSymmetric(boxes[i], boxes[j]);
      IouBounds(boxes[i], boxes[j]);
    }
    forall i | 0 <= i < |boxes|
      ensures m[i][i] == 1.0
    {
      IouSelf(boxes[i]);
    }
  }
}
