/**
 * Greedy, class-aware non-maximum suppression over prediction rows
 * `(x1, y1, x2, y2, confidence, class index)`.
 *
 * The rows are visited in descending confidence order over a keep-mask that
 * starts all true; each row still kept clears every row of its class whose
 * IoU with it exceeds the threshold. The IoU matrix has the identity
 * subtracted, so a row's overlap with itself reads 0.
 */
module Suppression {
  import opened BoxIou

  /** One row of the prediction matrix. */
  datatype Row = Row(box: Box, confidence: real, classIndex: nat)

  predicate AllPositive(rows: seq<Row>)
  {
    forall i :: 0 <= i < |rows| ==> PositiveArea(rows[i].box)
  }

  predicate InRange(rows: seq<Row>, s: seq<nat>)
  {
    forall k :: 0 <= k < |s| ==> s[k] < |rows|
  }

  predicate DistinctIndices(s: seq<nat>)
  {
    forall k, m :: 0 <= k < m < |s| ==> s[k] != s[m]
  }

  /** Confidence never increases along `s`. */
  predicate Descending(rows: seq<Row>, s: seq<nat>)
    requires InRange(rows, s)
  {
    forall k, m :: 0 <= k < m < |s| ==> rows[s[k]].confidence >= rows[s[m]].confidence
  }

  /**
   * `order` lists every row index exactly once, highest confidence first.
   * Ties may come in any order: `argsort` is not stable.
   */
  predicate IsDescendingOrder(rows: seq<Row>, order: seq<nat>)
  {
    |order| == |rows| && InRange(rows, order) && DistinctIndices(order)
    && (forall i :: 0 <= i < |rows| ==> i in order)
    && Descending(rows, order)
  }

  /** Where row `i` sits in a descending order. */
  lemma Position(rows: seq<Row>, order: seq<nat>, i: nat) returns (p: nat)
    requires IsDescendingOrder(rows, order) && i < |rows|
    ensures p < |rows| && order[p] == i
  {
    assert i in order;
    p :| 0 <= p < |order| && order[p] == i;
  }

  // ---------------------------------------------------------------------------
  // A descending order (`np.flip(confidences.argsort())`)

  /** Inserts index `i` before the first index whose confidence is not larger. */
  function InsertIndex(rows: seq<Row>, i: nat, s: seq<nat>): (r: seq<nat>)
    requires i < |rows| && InRange(rows, s) && Descending(rows, s)
    ensures |r| == |s| + 1 && InRange(rows, r) && Descending(rows, r)
    ensures forall x :: x in r <==> x == i || x in s
    ensures i !in s && DistinctIndices(s) ==> DistinctIndices(r)
  {
    if s == [] then
      [i]
    else if rows[i].confidence >= rows[s[0]].confidence then
      [i] + s
    else
      var t := InsertIndex(rows, i, s[1..]);
      assert forall x :: x in s <==> x == s[0] || x in s[1..];
      HeadDominates(rows, i, s, t);
      assert i !in s && DistinctIndices(s) ==> s[0] !in t;
      PrependIndex(rows, s[0], t);
      [s[0]] + t
  }

  /** Prepending an index at least as confident as every index of `t` keeps `t` descending. */
  lemma PrependIndex(rows: seq<Row>, h: nat, t: seq<nat>)
    requires h < |rows| && InRange(rows, t) && Descending(rows, t)
    requires forall m :: 0 <= m < |t| ==> rows[h].confidence >= rows[t[m]].confidence
    ensures InRange(rows, [h] + t) && Descending(rows, [h] + t)
    ensures forall x :: x in [h] + t <==> x == h || x in t
    ensures h !in t && DistinctIndices(t) ==> DistinctIndices([h] + t)
  {
    var r := [h] + t;
    assert forall m :: 0 < m < |r| ==> r[m] == t[m - 1];
  }

  /** The head of a descending list stays ahead of anything the rest becomes by inserting a smaller `i`. */
  lemma HeadDominates(rows: seq<Row>, i: nat, s: seq<nat>, t: seq<nat>)
    requires i < |rows| && s != [] && InRange(rows, s) && InRange(rows, t) && Descending(rows, s)
    requires rows[i].confidence < rows[s[0]].confidence
    requires forall x :: x in t <==> x == i || x in s[1..]
    ensures forall m :: 0 <= m < |t| ==> rows[s[0]].confidence >= rows[t[m]].confidence
  {
    forall m | 0 <= m < |t|
      ensures rows[s[0]].confidence >= rows[t[m]].confidence
    {
      assert t[m] in t;
      if t[m] != i {
        var p :| 0 <= p < |s[1..]| && s[1..][p] == t[m];
        assert s[p + 1] == t[m];
      }
    }
  }

  function SortIndices(rows: seq<Row>, s: seq<nat>): (r: seq<nat>)
    requires InRange(rows, s)
    ensures |r| == |s| && InRange(rows, r) && Descending(rows, r)
    ensures forall x :: x in r <==> x in s
    ensures DistinctIndices(s) ==> DistinctIndices(r)
  {
    if s == [] then
      []
    else
      assert forall x :: x in s <==> x == s[0] || x in s[1..];
      InsertIndex(rows, s[0], SortIndices(rows, s[1..]))
  }

  /** One descending order of the rows, as `argsort` flipped would give. */
  function ArgsortDescending(rows: seq<Row>): (order: seq<nat>)
    ensures IsDescendingOrder(rows, order)
  {
    var all := seq(|rows|, i requires 0 <= i < |rows| => i as nat);
    var order := SortIndices(rows, all);
    forall i | 0 <= i < |rows|
      ensures i in order
    {
      assert all[i] == i && all[i] in all;
    }
    order
  }

  // ---------------------------------------------------------------------------
  // The suppression loop, on the sorted rows

  predicate Square(ious: seq<seq<real>>, n: nat)
  {
    |ious| == n && forall i :: 0 <= i < n ==> |ious[i]| == n
  }

  /**
   * Visiting row `index`: when it is still kept, every row of its class whose
   * IoU with it exceeds the threshold is cleared (`keep & ~condition`).
   */
  function Visit(ious: seq<seq<real>>, cats: seq<nat>, thr: real, keep: seq<bool>, index: nat): (r: seq<bool>)
    requires Square(ious, |cats|) && |keep| == |cats| && index < |cats|
    ensures |r| == |keep|
    ensures forall j :: 0 <= j < |keep| && cats[j] != cats[index] ==> r[j] == keep[j]
    ensures forall j :: 0 <= j < |keep| && ious[index][j] <= thr ==> r[j] == keep[j]
    ensures forall j :: 0 <= j < |keep| && r[j] ==> keep[j]
  {
    if !keep[index] then
      keep
    else
      seq(|keep|, j requires 0 <= j < |keep| => keep[j] && !(ious[index][j] > thr && cats[j] == cats[index]))
  }

  /** The mask after visiting rows `0 .. a-1`, starting from all true. */
  function KeepAfter(ious: seq<seq<real>>, cats: seq<nat>, thr: real, a: nat): (k: seq<bool>)
    requires Square(ious, |cats|) && a <= |cats|
    ensures |k| == |cats|
  {
    if a == 0 then seq(|cats|, _ => true)
    else Visit(ious, cats, thr, KeepAfter(ious, cats, thr, a - 1), a - 1)
  }

  predicate SymmetricOffDiagonal(ious: seq<seq<real>>, n: nat)
    requires Square(ious, n)
  {
    forall i, j :: 0 <= i < n && 0 <= j < n && i != j ==> ious[i][j] == ious[j][i]
  }

  predicate DiagonalAtMost(ious: seq<seq<real>>, n: nat, thr: real)
    requires Square(ious, n)
  {
    forall i :: 0 <= i < n ==> ious[i][i] <= thr
  }

  /**
   * The greedy rule after `a` visits: a row is kept exactly when no kept row
   * that comes before it, among the first `a`, is of its class and overlaps
   * it by more than the threshold.
   */
  predicate GreedyUpTo(ious: seq<seq<real>>, cats: seq<nat>, thr: real, k: seq<bool>, a: nat)
    requires Square(ious, |cats|) && |k| == |cats|
  {
    forall x :: 0 <= x < |k| ==> (k[x] <==> !Blocked(ious, cats, thr, k, a, x))
  }

  /** Some kept row before `x`, among the first `a`, is of its class and overlaps it beyond `thr`. */
  predicate Blocked(ious: seq<seq<real>>, cats: seq<nat>, thr: real, k: seq<bool>, a: nat, x: nat)
    requires Square(ious, |cats|) && |k| == |cats| && x < |k|
  {
    exists b :: 0 <= b < x && b < a && k[b] && cats[b] == cats[x] && ious[b][x] > thr
  }

  /** Visiting row `a` extends the greedy rule from the first `a` rows to the first `next == a + 1`. */
  lemma {:induction false} GreedyStep(ious: seq<seq<real>>, cats: seq<nat>, thr: real, k: seq<bool>, a: nat, next: nat)
    requires Square(ious, |cats|) && |k| == |cats| && a < |cats| && next == a + 1
    requires SymmetricOffDiagonal(ious, |cats|) && DiagonalAtMost(ious, |cats|, thr)
    requires GreedyUpTo(ious, cats, thr, k, a)
    ensures GreedyUpTo(ious, cats, thr, Visit(ious, cats, thr, k, a), next)
  {
    var k' := Visit(ious, cats, thr, k, a);
    if k[a] {
      // A row kept before `a` is never cleared by `a`: it would have cleared `a` first.
      forall b | 0 <= b < a && k[b]
        ensures k'[b]
      {
      }
      assert k'[a];
      forall x | 0 <= x < |k|
        ensures k'[x] <==> !Blocked(ious, cats, thr, k', next, x)
      {
        if x <= a {
          assert forall b :: 0 <= b < x ==> (k'[b] <==> k[b]);
        } else {
          assert forall b :: 0 <= b < a ==> (k'[b] <==> k[b]);
        }
      }
    }
  }

  lemma {:induction false} KeepAfterGreedy(ious: seq<seq<real>>, cats: seq<nat>, thr: real, a: nat)
    requires Square(ious, |cats|) && a <= |cats|
    requires SymmetricOffDiagonal(ious, |cats|) && DiagonalAtMost(ious, |cats|, thr)
    ensures GreedyUpTo(ious, cats, thr, KeepAfter(ious, cats, thr, a), a)
  {
    if a > 0 {
      var k := KeepAfter(ious, cats, thr, a - 1);
      KeepAfterGreedy(ious, cats, thr, a - 1);
      GreedyStep(ious, cats, thr, k, a - 1, a);
      assert KeepAfter(ious, cats, thr, a) == Visit(ious, cats, thr, k, a - 1);
    }
  }

  /** When every diagonal entry exceeds the threshold, each visited row clears itself. */
  lemma {:induction false} KeepAfterDropsVisited(ious: seq<seq<real>>, cats: seq<nat>, thr: real, a: nat)
    requires Square(ious, |cats|) && a <= |cats|
    requires forall i :: 0 <= i < |cats| ==> ious[i][i] > thr
    ensures forall x :: 0 <= x < a ==> !KeepAfter(ious, cats, thr, a)[x]
  {
    if a > 0 {
      KeepAfterDropsVisited(ious, cats, thr, a - 1);
    }
  }

  // ---------------------------------------------------------------------------
  // The rows as the loop sees them

  /** `predictions[sort_index]`. */
  function Reordered(rows: seq<Row>, order: seq<nat>): (s: seq<Row>)
    requires InRange(rows, order)
    ensures |s| == |order|
    ensures forall k :: 0 <= k < |order| ==> s[k] == rows[order[k]]
  {
    seq(|order|, k requires 0 <= k < |order| => rows[order[k]])
  }

  /** `batch_iou(boxes, boxes) - np.eye(rows)`. */
  function SelfIous(boxes: seq<Box>): (m: seq<seq<real>>)
    requires forall i :: 0 <= i < |boxes| ==> PositiveArea(boxes[i])
    ensures Square(m, |boxes|)
    ensures forall i, j :: 0 <= i < |boxes| && 0 <= j < |boxes| && i != j ==> m[i][j] == Iou(boxes[i], boxes[j])
    ensures forall i :: 0 <= i < |boxes| ==> m[i][i] == 0.0
    ensures SymmetricOffDiagonal(m, |boxes|)
  {
    BatchIouSelf(boxes);
    var full := BatchIou(boxes, boxes);
    seq(|boxes|, i requires 0 <= i < |boxes| =>
      seq(|boxes|, j requires 0 <= j < |boxes| => full[i][j] - if i == j then 1.0 else 0.0))
  }

  function SortedIous(rows: seq<Row>, order: seq<nat>): (m: seq<seq<real>>)
    requires AllPositive(rows) && InRange(rows, order)
    ensures Square(m, |order|)
  {
    var sorted := Reordered(rows, order);
    SelfIous(seq(|sorted|, k requires 0 <= k < |sorted| => sorted[k].box))
  }

  function SortedClasses(rows: seq<Row>, order: seq<nat>): (c: seq<nat>)
    requires InRange(rows, order)
    ensures |c| == |order|
    ensures forall k :: 0 <= k < |order| ==> c[k] == rows[order[k]].classIndex
  {
    var sorted := Reordered(rows, order);
    seq(|sorted|, k requires 0 <= k < |sorted| => sorted[k].classIndex)
  }

  // ---------------------------------------------------------------------------
  // The greedy rule on the caller's rows

  /** Some kept row of the same class ahead of `order[k]` overlaps it beyond the threshold. */
  predicate SuppressedByEarlier(rows: seq<Row>, order: seq<nat>, thr: real, keep: seq<bool>, k: nat)
    requires AllPositive(rows) && IsDescendingOrder(rows, order) && |keep| == |rows| && k < |rows|
  {
    exists m :: 0 <= m < k && keep[order[m]]
      && rows[order[m]].classIndex == rows[order[k]].classIndex
      && Iou(rows[order[m]].box, rows[order[k]].box) > thr
  }

  /**
   * What the suppression computes, stated on the caller's rows: row
   * `order[k]` survives exactly when no surviving row before it in `order`
   * is of its class and overlaps it by more than the threshold.
   */
  predicate GreedyMask(rows: seq<Row>, order: seq<nat>, thr: real, keep: seq<bool>)
    requires AllPositive(rows) && IsDescendingOrder(rows, order)
  {
    |keep| == |rows|
    && forall k :: 0 <= k < |rows| ==> (keep[order[k]] <==> !SuppressedByEarlier(rows, order, thr, keep, k))
  }

  lemma {:induction false} GreedyFromKeepAfter(rows: seq<Row>, order: seq<nat>, thr: real, keep: seq<bool>)
    requires AllPositive(rows) && IsDescendingOrder(rows, order) && |keep| == |rows|
    requires thr >= 0.0
    requires forall k :: 0 <= k < |rows| ==>
      keep[order[k]] == KeepAfter(SortedIous(rows, order), SortedClasses(rows, order), thr, |rows|)[k]
    ensures GreedyMask(rows, order, thr, keep)
  {
    var ious, cats := SortedIous(rows, order), SortedClasses(rows, order);
    var sorted := Reordered(rows, order);
    assert ious == SelfIous(seq(|sorted|, k requires 0 <= k < |sorted| => sorted[k].box));
    KeepAfterGreedy(ious, cats, thr, |rows|);
    var final := KeepAfter(ious, cats, thr, |rows|);
    forall k | 0 <= k < |rows|
      ensures keep[order[k]] <==> !SuppressedByEarlier(rows, order, thr, keep, k)
    {
      assert forall m :: 0 <= m < k ==> ious[m][k] == Iou(rows[order[m]].box, rows[order[k]].box);
      GreedyAtPosition(rows, order, thr, keep, ious, cats, final, k);
    }
  }

  /** The greedy rule at sorted position `k`, carried from the sorted rows back to the caller's. */
  lemma GreedyAtPosition(rows: seq<Row>, order: seq<nat>, thr: real, keep: seq<bool>,
                         ious: seq<seq<real>>, cats: seq<nat>, final: seq<bool>, k: nat)
    requires AllPositive(rows) && IsDescendingOrder(rows, order) && |keep| == |rows| && k < |rows|
    requires Square(ious, |cats|) && |cats| == |rows| && |final| == |rows|
    requires forall m :: 0 <= m < |rows| ==> keep[order[m]] == final[m]
    requires forall m :: 0 <= m < |rows| ==> cats[m] == rows[order[m]].classIndex
    requires forall m :: 0 <= m < k ==> ious[m][k] == Iou(rows[order[m]].box, rows[order[k]].box)
    requires final[k] <==> !Blocked(ious, cats, thr, final, |rows|, k)
    ensures keep[order[k]] <==> !SuppressedByEarlier(rows, order, thr, keep, k)
  {
    if SuppressedByEarlier(rows, order, thr, keep, k) {
      var m :| 0 <= m < k && keep[order[m]]
        && rows[order[m]].classIndex == rows[order[k]].classIndex
        && Iou(rows[order[m]].box, rows[order[k]].box) > thr;
      assert final[m] && cats[m] == cats[k] && ious[m][k] > thr;
    } else {
      forall b | 0 <= b < k && final[b] && cats[b] == cats[k]
        ensures ious[b][k] <= thr
      {
        assert keep[order[b]];
      }
    }
  }

  /**
   * `non_max_suppression`: the keep-mask over the caller's rows, computed
   * on the rows sorted by `order` and scattered back (`keep[sort_index.argsort()]`).
   */
  method NonMaxSuppression(rows: seq<Row>, order: seq<nat>, iouThreshold: real) returns (keep: seq<bool>)
    requires AllPositive(rows)
    requires IsDescendingOrder(rows, order)
    ensures |keep| == |rows|
    ensures forall k :: 0 <= k < |rows| ==>
      keep[order[k]] == KeepAfter(SortedIous(rows, order), SortedClasses(rows, order), iouThreshold, |rows|)[k]
    ensures iouThreshold >= 0.0 ==> GreedyMask(rows, order, iouThreshold, keep)
    ensures iouThreshold < 0.0 ==> forall i :: 0 <= i < |rows| ==> !keep[i]
  {
    var ious := SortedIous(rows, order);
    var categories := SortedClasses(rows, order);
    var mask := SuppressSorted(ious, categories, iouThreshold);
    keep := Unsort(mask, order);
    if iouThreshold >= 0.0 {
      GreedyFromKeepAfter(rows, order, iouThreshold, keep);
    } else {
      NegativeThresholdDropsAll(rows, order, iouThreshold, keep);
    }
  }

  /** The loop over the sorted rows: visiting each in turn yields `KeepAfter` of all of them. */
  method SuppressSorted(ious: seq<seq<real>>, categories: seq<nat>, iouThreshold: real) returns (mask: array<bool>)
    requires Square(ious, |categories|)
    ensures fresh(mask)
    ensures mask[..] == KeepAfter(ious, categories, iouThreshold, |categories|)
  {
    var n := |categories|;
    mask := new bool[n](_ => true);
    assert mask[..] == KeepAfter(ious, categories, iouThreshold, 0);
    var index := 0;
    while index < n
      invariant 0 <= index <= n
      invariant mask[..] == KeepAfter(ious, categories, iouThreshold, index)
    {
      if mask[index] {
        SuppressOverlapping(mask, ious, categories, iouThreshold, index);
      }
      index := index + 1;
    }
  }

  /** With a negative threshold every row overlaps itself beyond it, so nothing survives. */
  lemma NegativeThresholdDropsAll(rows: seq<Row>, order: seq<nat>, thr: real, keep: seq<bool>)
    requires AllPositive(rows) && IsDescendingOrder(rows, order) && |keep| == |rows| && thr < 0.0
    requires forall k :: 0 <= k < |rows| ==>
      keep[order[k]] == KeepAfter(SortedIous(rows, order), SortedClasses(rows, order), thr, |rows|)[k]
    ensures forall i :: 0 <= i < |rows| ==> !keep[i]
  {
    KeepAfterDropsVisited(SortedIous(rows, order), SortedClasses(rows, order), thr, |rows|);
    forall i | 0 <= i < |rows|
      ensures !keep[i]
    {
      var p := Position(rows, order, i);
    }
  }

  /** `keep = keep & ~condition` for the kept row `index`, element by element. */
  method SuppressOverlapping(mask: array<bool>, ious: seq<seq<real>>, cats: seq<nat>, thr: real, index: nat)
    requires Square(ious, |cats|) && mask.Length == |cats| && index < |cats|
    requires mask[index]
    modifies mask
    ensures mask[..] == Visit(ious, cats, thr, old(mask[..]), index)
  {
    var j := 0;
    while j < mask.Length
      invariant 0 <= j <= mask.Length
      invariant forall m :: 0 <= m < j ==>
        mask[m] == (old(mask[m]) && !(ious[index][m] > thr && cats[m] == cats[index]))
      invariant forall m :: j <= m < mask.Length ==> mask[m] == old(mask[m])
    {
      mask[j] := mask[j] && !(ious[index][j] > thr && cats[j] == cats[index]);
      j := j + 1;
    }
  }

  /** `keep[sort_index.argsort()]`: entry `k` of the sorted mask goes back to row `order[k]`. */
  method Unsort(mask: array<bool>, order: seq<nat>) returns (keep: seq<bool>)
    requires |order| == mask.Length && DistinctIndices(order)
    requires forall k :: 0 <= k < |order| ==> order[k] < mask.Length
    ensures |keep| == mask.Length
    ensures forall k :: 0 <= k < |order| ==> keep[order[k]] == mask[k]
  {
    var scattered := new bool[mask.Length];
    var k := 0;
    while k < mask.Length
      invariant 0 <= k <= mask.Length
      invariant forall m :: 0 <= m < k ==> scattered[order[m]] == mask[m]
    {
      scattered[order[k]] := mask[k];
      k := k + 1;
    }
    keep := scattered[..];
  }

  // ---------------------------------------------------------------------------
  // Consequences of the greedy rule

  /** The first row in the order, a highest-confidence one, always survives. */
  lemma TopRowKept(rows: seq<Row>, order: seq<nat>, thr: real, keep: seq<bool>)
    requires AllPositive(rows) && IsDescendingOrder(rows, order)
    requires GreedyMask(rows, order, thr, keep) && |rows| > 0
    ensures keep[order[0]]
    ensures forall i :: 0 <= i < |rows| ==> rows[order[0]].confidence >= rows[i].confidence
  {
    assert !SuppressedByEarlier(rows, order, thr, keep, 0);
    forall i | 0 <= i < |rows|
      ensures rows[order[0]].confidence >= rows[i].confidence
    {
      var p := Position(rows, order, i);
    }
  }

  /** No two survivors of one class overlap by more than the threshold. */
  predicate Separated(rows: seq<Row>, thr: real)
    requires AllPositive(rows)
  {
    forall i, j :: 0 <= i < |rows| && 0 <= j < |rows| && i != j && rows[i].classIndex == rows[j].classIndex
      ==> Iou(rows[i].box, rows[j].box) <= thr
  }

  lemma {:induction false} SurvivorsDoNotOverlap(rows: seq<Row>, order: seq<nat>, thr: real, keep: seq<bool>)
    requires AllPositive(rows) && IsDescendingOrder(rows, order)
    requires GreedyMask(rows, order, thr, keep)
    ensures forall i, j ::
      (0 <= i < |rows| && 0 <= j < |rows| && i != j && keep[i] && keep[j]
       && rows[i].classIndex == rows[j].classIndex) ==> Iou(rows[i].box, rows[j].box) <= thr
  {
    forall i, j | 0 <= i < |rows| && 0 <= j < |rows| && i != j && keep[i] && keep[j]
      && rows[i].classIndex == rows[j].classIndex
      ensures Iou(rows[i].box, rows[j].box) <= thr
    {
      var p := Position(rows, order, i);
      var q := Position(rows, order, j);
      IouSymmetric(rows[i].box, rows[j].box);
      if p < q {
        assert !SuppressedByEarlier(rows, order, thr, keep, q);
      } else {
        assert !SuppressedByEarlier(rows, order, thr, keep, p);
      }
    }
  }

  /**
   * Every suppressed row overlaps, by more than the threshold, a survivor of
   * its own class whose confidence is at least its own.
   */
  lemma {:induction false} SuppressedHasWitness(rows: seq<Row>, order: seq<nat>, thr: real, keep: seq<bool>, i: nat)
    requires AllPositive(rows) && IsDescendingOrder(rows, order)
    requires GreedyMask(rows, order, thr, keep)
    requires i < |rows| && !keep[i]
    ensures exists j ::
      0 <= j < |rows| && j != i && keep[j] && rows[j].classIndex == rows[i].classIndex
      && Iou(rows[j].box, rows[i].box) > thr && rows[j].confidence >= rows[i].confidence
  {
    var p := Position(rows, order, i);
    assert SuppressedByEarlier(rows, order, thr, keep, p);
    var m :| 0 <= m < p && keep[order[m]]
      && rows[order[m]].classIndex == rows[order[p]].classIndex
      && Iou(rows[order[m]].box, rows[order[p]].box) > thr;
    var j := order[m];
    assert j != i;
    assert keep[j] && rows[j].confidence >= rows[i].confidence;
  }

  /** A row alone in its class is never suppressed. */
  lemma LoneClassKept(rows: seq<Row>, order: seq<nat>, thr: real, keep: seq<bool>, i: nat)
    requires AllPositive(rows) && IsDescendingOrder(rows, order)
    requires GreedyMask(rows, order, thr, keep)
    requires i < |rows|
    requires forall j :: 0 <= j < |rows| && j != i ==> rows[j].classIndex != rows[i].classIndex
    ensures keep[i]
  {
    var p := Position(rows, order, i);
    assert !SuppressedByEarlier(rows, order, thr, keep, p);
  }

  /** For a given order, the greedy rule determines the mask. */
  lemma {:induction false} GreedyMaskUnique(rows: seq<Row>, order: seq<nat>, thr: real, k1: seq<bool>, k2: seq<bool>)
    requires AllPositive(rows) && IsDescendingOrder(rows, order)
    requires GreedyMask(rows, order, thr, k1) && GreedyMask(rows, order, thr, k2)
    ensures k1 == k2
  {
    GreedyPrefixAgrees(rows, order, thr, k1, k2, |rows|);
    forall i | 0 <= i < |rows|
      ensures k1[i] == k2[i]
    {
      var p := Position(rows, order, i);
    }
  }

  lemma {:induction false} GreedyPrefixAgrees(rows: seq<Row>, order: seq<nat>, thr: real, k1: seq<bool>, k2: seq<bool>, a: nat)
    requires AllPositive(rows) && IsDescendingOrder(rows, order)
    requires GreedyMask(rows, order, thr, k1) && GreedyMask(rows, order, thr, k2)
    requires a <= |rows|
    ensures forall k :: 0 <= k < a ==> k1[order[k]] == k2[order[k]]
  {
    if a > 0 {
      GreedyPrefixAgrees(rows, order, thr, k1, k2, a - 1);
      var k := a - 1;
      assert SuppressedByEarlier(rows, order, thr, k1, k) == SuppressedByEarlier(rows, order, thr, k2, k) by {
        if SuppressedByEarlier(rows, order, thr, k1, k) {
          var m :| 0 <= m < k && k1[order[m]]
            && rows[order[m]].classIndex == rows[order[k]].classIndex
            && Iou(rows[order[m]].box, rows[order[k]].box) > thr;
          assert k2[order[m]];
        }
        if SuppressedByEarlier(rows, order, thr, k2, k) {
          var m :| 0 <= m < k && k2[order[m]]
            && rows[order[m]].classIndex == rows[order[k]].classIndex
            && Iou(rows[order[m]].box, rows[order[k]].box) > thr;
          assert k1[order[m]];
        }
      }
    }
  }

  // ---------------------------------------------------------------------------
  // Applying the mask (`predictions[mask]`)

  /** The positions where the mask is true, in increasing order. */
  function KeptIndices(keep: seq<bool>): (ix: seq<nat>)
    ensures forall p :: 0 <= p < |ix| ==> ix[p] < |keep| && keep[ix[p]]
    ensures forall p, q :: 0 <= p < q < |ix| ==> ix[p] < ix[q]
  {
    if keep == [] then
      []
    else
      var init := keep[..|keep| - 1];
      var front := KeptIndices(init);
      assert forall i :: 0 <= i < |init| ==> init[i] == keep[i];
      front + if keep[|keep| - 1] then [|keep| - 1] else []
  }

  /** Every true flag's position is listed, so an all-false mask lists nothing. */
  lemma {:induction false} KeptIndicesComplete(keep: seq<bool>)
    ensures forall i :: 0 <= i < |keep| && keep[i] ==> i in KeptIndices(keep)
    ensures (forall i :: 0 <= i < |keep| ==> !keep[i]) ==> KeptIndices(keep) == []
  {
    if keep != [] {
      var init := keep[..|keep| - 1];
      KeptIndicesComplete(init);
      assert forall i :: 0 <= i < |init| ==> init[i] == keep[i];
    }
  }

  /** `s` lists the rows of `rows` at the increasing positions `ix`. */
  predicate SubsequenceAt(s: seq<Row>, rows: seq<Row>, ix: seq<nat>)
  {
    && |ix| == |s|
    && (forall p :: 0 <= p < |ix| ==> ix[p] < |rows| && s[p] == rows[ix[p]])
    && (forall p, q :: 0 <= p < q < |ix| ==> ix[p] < ix[q])
  }

  /** `s` is `rows` with some rows left out and the rest in their order. */
  ghost predicate IsSubsequence(s: seq<Row>, rows: seq<Row>)
  {
    exists ix :: SubsequenceAt(s, rows, ix)
  }

  /** `predictions[mask]`: exactly the rows whose flag is set, in index order. */
  function Select(rows: seq<Row>, keep: seq<bool>): (s: seq<Row>)
    requires |keep| == |rows|
    ensures |s| == |KeptIndices(keep)| && |s| <= |rows|
    ensures forall p :: 0 <= p < |s| ==> s[p] == rows[KeptIndices(keep)[p]]
    ensures forall p :: 0 <= p < |s| ==> s[p] in rows
    ensures forall i :: 0 <= i < |rows| && keep[i] ==> rows[i] in s
  {
    var ix := KeptIndices(keep);
    KeptIndicesComplete(keep);
    assert |ix| <= |keep| by { IncreasingBounded(ix, |keep|); }
    var s := seq(|ix|, p requires 0 <= p < |ix| => rows[ix[p]]);
    assert forall p :: 0 <= p < |s| ==> s[p] in rows by {
      forall p | 0 <= p < |s|
        ensures s[p] in rows
      {
        assert s[p] == rows[ix[p]];
      }
    }
    assert forall i :: 0 <= i < |rows| && keep[i] ==> rows[i] in s by {
      forall i | 0 <= i < |rows| && keep[i]
        ensures rows[i] in s
      {
        var p :| 0 <= p < |ix| && ix[p] == i;
        assert s[p] == rows[i];
      }
    }
    s
  }

  /** A mask that keeps nothing selects nothing. */
  lemma SelectNone(rows: seq<Row>, keep: seq<bool>)
    requires |keep| == |rows| && forall i :: 0 <= i < |keep| ==> !keep[i]
    ensures Select(rows, keep) == []
  {
    KeptIndicesComplete(keep);
  }

  /** A strictly increasing list of indices below `n` has at most `n` entries. */
  lemma {:induction false} IncreasingBounded(ix: seq<nat>, n: nat)
    requires forall p :: 0 <= p < |ix| ==> ix[p] < n
    requires forall p, q :: 0 <= p < q < |ix| ==> ix[p] < ix[q]
    ensures |ix| <= n
  {
    if |ix| > 0 {
      var last := ix[|ix| - 1];
      IncreasingBounded(ix[..|ix| - 1], last);
    }
  }

  /** The survivors, taken out with the mask, are pairwise separated. */
  lemma {:induction false} SurvivorsSeparated(rows: seq<Row>, order: seq<nat>, thr: real, keep: seq<bool>)
    requires AllPositive(rows) && IsDescendingOrder(rows, order)
    requires GreedyMask(rows, order, thr, keep)
    ensures AllPositive(Select(rows, keep))
    ensures Separated(Select(rows, keep), thr)
  {
    var ix := KeptIndices(keep);
    var s := Select(rows, keep);
    assert forall p :: 0 <= p < |s| ==> s[p] == rows[ix[p]];
    SurvivorsDoNotOverlap(rows, order, thr, keep);
    forall p, q | 0 <= p < |s| && 0 <= q < |s| && p != q && s[p].classIndex == s[q].classIndex
      ensures Iou(s[p].box, s[q].box) <= thr
    {
      assert ix[p] != ix[q];
    }
  }

  /** Rows that are already separated all survive. */
  lemma {:induction false} SeparatedAllKept(rows: seq<Row>, order: seq<nat>, thr: real, keep: seq<bool>)
    requires AllPositive(rows) && IsDescendingOrder(rows, order)
    requires Separated(rows, thr)
    requires GreedyMask(rows, order, thr, keep)
    ensures forall i :: 0 <= i < |rows| ==> keep[i]
  {
    forall i | 0 <= i < |rows|
      ensures keep[i]
    {
      var p := Position(rows, order, i);
      assert !SuppressedByEarlier(rows, order, thr, keep, p);
    }
  }

  /** Suppressing the survivors again, in any descending order, keeps every one of them. */
  lemma Idempotent(rows: seq<Row>, order: seq<nat>, thr: real, keep: seq<bool>,
                   order2: seq<nat>, keep2: seq<bool>)
    requires AllPositive(rows) && IsDescendingOrder(rows, order)
    requires GreedyMask(rows, order, thr, keep)
    requires IsDescendingOrder(Select(rows, keep), order2)
    requires AllPositive(Select(rows, keep)) && GreedyMask(Select(rows, keep), order2, thr, keep2)
    ensures forall i :: 0 <= i < |keep2| ==> keep2[i]
  {
    SurvivorsSeparated(rows, order, thr, keep);
    SeparatedAllKept(Select(rows, keep), order2, thr, keep2);
  }

  /** Some row of `s` has the class of `r`, overlaps it beyond `thr` and is at least as confident. */
  predicate Covered(s: seq<Row>, r: Row, thr: real)
    requires AllPositive(s) && PositiveArea(r.box)
  {
    exists p :: 0 <= p < |s| && s[p].classIndex == r.classIndex
      && Iou(s[p].box, r.box) > thr && s[p].confidence >= r.confidence
  }

  lemma SelectPositive(rows: seq<Row>, keep: seq<bool>)
    requires AllPositive(rows) && |keep| == |rows|
    ensures AllPositive(Select(rows, keep))
  {
    var s := Select(rows, keep);
    forall p | 0 <= p < |s|
      ensures PositiveArea(s[p].box)
    {
      var i :| 0 <= i < |rows| && rows[i] == s[p];
    }
  }

  /** Every row either survives or is covered by a survivor (see `SuppressedHasWitness`). */
  lemma {:induction false} SelectionCovers(rows: seq<Row>, order: seq<nat>, thr: real, keep: seq<bool>, i: nat)
    requires AllPositive(rows) && IsDescendingOrder(rows, order)
    requires GreedyMask(rows, order, thr, keep)
    requires i < |rows|
    ensures AllPositive(Select(rows, keep))
    ensures rows[i] in Select(rows, keep) || Covered(Select(rows, keep), rows[i], thr)
  {
    SelectPositive(rows, keep);
    if !keep[i] {
      SuppressedHasWitness(rows, order, thr, keep, i);
      var j :| 0 <= j < |rows| && j != i && keep[j] && rows[j].classIndex == rows[i].classIndex
        && Iou(rows[j].box, rows[i].box) > thr && rows[j].confidence >= rows[i].confidence;
      KeptWitnessCovers(rows, keep, thr, i, j);
    }
  }

  /** A kept row that overlaps row `i` enough covers it in the selection. */
  lemma KeptWitnessCovers(rows: seq<Row>, keep: seq<bool>, thr: real, i: nat, j: nat)
    requires AllPositive(rows) && |keep| == |rows| && i < |rows| && j < |rows| && keep[j]
    requires rows[j].classIndex == rows[i].classIndex
    requires Iou(rows[j].box, rows[i].box) > thr && rows[j].confidence >= rows[i].confidence
    ensures AllPositive(Select(rows, keep))
    ensures Covered(Select(rows, keep), rows[i], thr)
  {
    SelectPositive(rows, keep);
    var s := Select(rows, keep);
    var p :| 0 <= p < |s| && s[p] == rows[j];
  }

  /** Some element of `s` is at least as confident as every row of `rows`. */
  predicate HasMostConfident(s: seq<Row>, rows: seq<Row>)
  {
    exists p :: 0 <= p < |s| && forall q :: 0 <= q < |rows| ==> s[p].confidence >= rows[q].confidence
  }

  /** A survivor is at least as confident as every row. */
  lemma {:induction false} MostConfidentSelected(rows: seq<Row>, order: seq<nat>, thr: real, keep: seq<bool>)
    requires AllPositive(rows) && IsDescendingOrder(rows, order)
    requires GreedyMask(rows, order, thr, keep) && |rows| > 0
    ensures HasMostConfident(Select(rows, keep), rows)
  {
    TopRowKept(rows, order, thr, keep);
    var s := Select(rows, keep);
    assert rows[order[0]] in s;
    var p :| 0 <= p < |s| && s[p] == rows[order[0]];
  }

  /** What the greedy mask guarantees about the rows it selects. */
  lemma GreedySelection(rows: seq<Row>, order: seq<nat>, thr: real, keep: seq<bool>)
    requires AllPositive(rows) && IsDescendingOrder(rows, order)
    requires GreedyMask(rows, order, thr, keep)
    ensures Separated(Select(rows, keep), thr)
    ensures forall q :: 0 <= q < |rows| ==>
      rows[q] in Select(rows, keep) || Covered(Select(rows, keep), rows[q], thr)
    ensures rows != [] ==> HasMostConfident(Select(rows, keep), rows)
  {
    SurvivorsSeparated(rows, order, thr, keep);
    if rows != [] {
      MostConfidentSelected(rows, order, thr, keep);
    }
    forall q | 0 <= q < |rows|
      ensures rows[q] in Select(rows, keep) || Covered(Select(rows, keep), rows[q], thr)
    {
      SelectionCovers(rows, order, thr, keep, q);
    }
  }

  /**
   * `predictions[self.non_max_suppression(predictions, iou_threshold)]`:
   * the rows that survive suppression in a descending order of confidence,
   * in their original order.
   */
  method KeepSurvivors(rows: seq<Row>, iouThreshold: real) returns (survivors: seq<Row>)
    requires AllPositive(rows)
    ensures forall p :: 0 <= p < |survivors| ==> survivors[p] in rows
    ensures IsSubsequence(survivors, rows)
    ensures AllPositive(survivors)
    ensures iouThreshold >= 0.0 ==> Separated(survivors, iouThreshold)
    ensures iouThreshold >= 0.0 ==> forall q :: 0 <= q < |rows| ==>
      rows[q] in survivors || Covered(survivors, rows[q], iouThreshold)
    ensures iouThreshold >= 0.0 && rows != [] ==> HasMostConfident(survivors, rows)
    ensures iouThreshold < 0.0 ==> survivors == []
  {
    var order := ArgsortDescending(rows);
    var keep := NonMaxSuppression(rows, order, iouThreshold);
    survivors := Select(rows, keep);
    assert SubsequenceAt(survivors, rows, KeptIndices(keep));
    SelectPositive(rows, keep);
    if iouThreshold >= 0.0 {
      GreedySelection(rows, order, iouThreshold, keep);
    } else {
      SelectNone(rows, keep);
    }
  }
}
