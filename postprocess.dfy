/**
 * What the YOLOv11 detector does with the raw network output: keep the
 * anchors whose best class score reaches the confidence threshold, turn
 * centre/size into corners, suppress overlaps, scale the corners back to the
 * tile, and wrap each row as a `Detection`.
 */
module YoloPostprocess {
  import opened Outcome
  import opened BoxIou
  import opened Suppression
  import Annotations

  /** One column of the raw output: centre, size and one score per class. */
  datatype Anchor = Anchor(x: real, y: real, w: real, h: real, scores: seq<real>)

  /** Every anchor carries at least one class score. */
  predicate WellShaped(output: seq<Anchor>)
  {
    forall i :: 0 <= i < |output| ==> |output[i].scores| > 0
  }

  /** `np.max(scores)`. */
  function MaxScore(scores: seq<real>): (m: real)
    requires |scores| > 0
    ensures m in scores
    ensures forall j :: 0 <= j < |scores| ==> scores[j] <= m
  {
    if |scores| == 1 then
      scores[0]
    else
      var rest := MaxScore(scores[1..]);
      assert forall j :: 1 <= j < |scores| ==> scores[j] == scores[1..][j - 1];
      if scores[0] >= rest then scores[0] else rest
  }

  /** `np.argmax(scores)`: the first position holding the maximum. */
  function ArgMax(scores: seq<real>): (c: nat)
    requires |scores| > 0
    ensures c < |scores| && scores[c] == MaxScore(scores)
    ensures forall j :: 0 <= j < c ==> scores[j] < scores[c]
  {
    if |scores| == 1 || scores[0] >= MaxScore(scores[1..]) then
      0
    else
      1 + ArgMax(scores[1..])
  }

  predicate Passes(a: Anchor, confidenceThreshold: real)
    requires |a.scores| > 0
  {
    MaxScore(a.scores) >= confidenceThreshold
  }

  /** Centre/size to corners, with the best score and its class. */
  function ToRow(a: Anchor): Row
    requires |a.scores| > 0
  {
    Row(Box(a.x - a.w / 2.0, a.y - a.h / 2.0, a.x + a.w / 2.0, a.y + a.h / 2.0),
        MaxScore(a.scores), ArgMax(a.scores))
  }

  /**
   * The row's box is centred on the anchor and has its width and height; its
   * confidence is the best score and its class the first class holding it.
   */
  lemma ToRowMeaning(a: Anchor)
    requires |a.scores| > 0
    ensures var r := ToRow(a);
      && (r.box.x1 + r.box.x2) / 2.0 == a.x && r.box.x2 - r.box.x1 == a.w
      && (r.box.y1 + r.box.y2) / 2.0 == a.y && r.box.y2 - r.box.y1 == a.h
      && (a.w > 0.0 && a.h > 0.0 ==> PositiveArea(r.box))
      && r.confidence in a.scores
      && (forall j :: 0 <= j < |a.scores| ==> a.scores[j] <= r.confidence)
      && r.classIndex < |a.scores| && a.scores[r.classIndex] == r.confidence
      && (forall j :: 0 <= j < r.classIndex ==> a.scores[j] < r.confidence)
  {
  }

  /** `mask = confidences >= confidence_threshold`. */
  function PassMask(output: seq<Anchor>, confidenceThreshold: real): (mask: seq<bool>)
    requires WellShaped(output)
    ensures |mask| == |output|
    ensures forall i :: 0 <= i < |output| ==> (mask[i] <==> Passes(output[i], confidenceThreshold))
  {
    seq(|output|, i requires 0 <= i < |output| => Passes(output[i], confidenceThreshold))
  }

  /** The rows of the anchors at positions `ix`, in that order. */
  function RowsAt(output: seq<Anchor>, ix: seq<nat>): (r: seq<Row>)
    requires WellShaped(output) && forall p :: 0 <= p < |ix| ==> ix[p] < |output|
    ensures |r| == |ix|
  {
    if ix == [] then [] else [ToRow(output[ix[0]])] + RowsAt(output, ix[1..])
  }

  lemma {:induction false} RowsAtIndex(output: seq<Anchor>, ix: seq<nat>, p: nat)
    requires WellShaped(output) && forall q :: 0 <= q < |ix| ==> ix[q] < |output|
    requires p < |ix|
    ensures RowsAt(output, ix)[p] == ToRow(output[ix[p]])
  {
    if p > 0 {
      RowsAtIndex(output, ix[1..], p - 1);
    }
  }

  /** `pred_results[:, mask]` turned into rows. */
  function Candidates(output: seq<Anchor>, confidenceThreshold: real): (c: seq<Row>)
    requires WellShaped(output)
    ensures |c| <= |output|
  {
    var ix := KeptIndices(PassMask(output, confidenceThreshold));
    assert |ix| <= |output| by { IncreasingBounded(ix, |output|); }
    RowsAt(output, ix)
  }

  /**
   * The candidates follow output order: the `p`-th is the row of the `p`-th
   * passing anchor, as listed by `KeptIndices`.
   */
  lemma CandidatesInOrder(output: seq<Anchor>, confidenceThreshold: real)
    requires WellShaped(output)
    ensures var ix := KeptIndices(PassMask(output, confidenceThreshold));
      && |Candidates(output, confidenceThreshold)| == |ix|
      && forall p :: 0 <= p < |ix| ==> Candidates(output, confidenceThreshold)[p] == ToRow(output[ix[p]])
  {
    var ix := KeptIndices(PassMask(output, confidenceThreshold));
    forall p | 0 <= p < |ix|
      ensures Candidates(output, confidenceThreshold)[p] == ToRow(output[ix[p]])
    {
      RowsAtIndex(output, ix, p);
    }
  }

  /** Every candidate is the row of a passing anchor, and every passing anchor gives one. */
  lemma CandidatesExactly(output: seq<Anchor>, confidenceThreshold: real)
    requires WellShaped(output)
    ensures forall r :: r in Candidates(output, confidenceThreshold) <==>
      (exists i :: 0 <= i < |output| && Passes(output[i], confidenceThreshold) && r == ToRow(output[i]))
  {
    var mask := PassMask(output, confidenceThreshold);
    var ix := KeptIndices(mask);
    var c := Candidates(output, confidenceThreshold);
    KeptIndicesComplete(mask);
    CandidatesInOrder(output, confidenceThreshold);
    forall r | r in c
      ensures exists i :: 0 <= i < |output| && Passes(output[i], confidenceThreshold) && r == ToRow(output[i])
    {
      var p :| 0 <= p < |c| && c[p] == r;
      assert mask[ix[p]];
    }
    forall i | 0 <= i < |output| && Passes(output[i], confidenceThreshold)
      ensures ToRow(output[i]) in c
    {
      assert i in ix;
      var p :| 0 <= p < |ix| && ix[p] == i;
      assert c[p] == ToRow(output[i]);
    }
  }

  lemma CandidatesPositive(output: seq<Anchor>, confidenceThreshold: real)
    requires WellShaped(output)
    requires forall i :: 0 <= i < |output| && Passes(output[i], confidenceThreshold) ==>
      output[i].w > 0.0 && output[i].h > 0.0
    ensures AllPositive(Candidates(output, confidenceThreshold))
  {
    var c := Candidates(output, confidenceThreshold);
    CandidatesExactly(output, confidenceThreshold);
    forall p | 0 <= p < |c|
      ensures PositiveArea(c[p].box)
    {
      assert c[p] in c;
      var i :| 0 <= i < |output| && Passes(output[i], confidenceThreshold) && c[p] == ToRow(output[i]);
      ToRowMeaning(output[i]);
    }
  }

  /** Anchors that pass the threshold and whose boxes therefore take part in suppression. */
  predicate Admissible(output: seq<Anchor>, confidenceThreshold: real)
  {
    && WellShaped(output)
    && forall i :: 0 <= i < |output| && Passes(output[i], confidenceThreshold) ==>
      output[i].w > 0.0 && output[i].h > 0.0
  }

  /** No candidate is left exactly when no anchor reaches the threshold. */
  lemma CandidatesEmpty(output: seq<Anchor>, confidenceThreshold: real)
    requires WellShaped(output)
    ensures Candidates(output, confidenceThreshold) == [] <==>
      forall i :: 0 <= i < |output| ==> !Passes(output[i], confidenceThreshold)
  {
    CandidatesExactly(output, confidenceThreshold);
    var c := Candidates(output, confidenceThreshold);
    if c != [] {
      assert c[0] in c;
    }
    assert forall i :: 0 <= i < |output| && Passes(output[i], confidenceThreshold) ==> ToRow(output[i]) in c;
  }

  /**
   * `postprocess_results`: filter by confidence, convert, suppress and keep
   * the surviving candidates, in candidate order. Every detection is a
   * candidate; when nothing passes the confidence threshold the result is
   * empty; survivors of one class do not overlap beyond the IoU threshold;
   * every candidate survives or is covered by a more confident survivor
   * of its class; some survivor is as confident as every candidate.
   */
  method PostprocessResults(output: seq<Anchor>, confidenceThreshold: real, iouThreshold: real)
    returns (detections: seq<Row>)
    requires Admissible(output, confidenceThreshold)
    ensures AllPositive(Candidates(output, confidenceThreshold))
    ensures forall p :: 0 <= p < |detections| ==> detections[p] in Candidates(output, confidenceThreshold)
    ensures IsSubsequence(detections, Candidates(output, confidenceThreshold))
    ensures Candidates(output, confidenceThreshold) == [] ==> detections == []
    ensures AllPositive(detections)
    ensures iouThreshold >= 0.0 ==> Separated(detections, iouThreshold)
    ensures iouThreshold >= 0.0 ==> forall q :: 0 <= q < |Candidates(output, confidenceThreshold)| ==>
      Candidates(output, confidenceThreshold)[q] in detections
      || Covered(detections, Candidates(output, confidenceThreshold)[q], iouThreshold)
    ensures iouThreshold >= 0.0 && Candidates(output, confidenceThreshold) != [] ==>
      HasMostConfident(detections, Candidates(output, confidenceThreshold))
    ensures iouThreshold < 0.0 ==> detections == []
  {
    var candidates := Candidates(output, confidenceThreshold);
    CandidatesPositive(output, confidenceThreshold);
    if |candidates| == 0 {
      assert SubsequenceAt([], candidates, []);
      return [];
    }
    detections := KeepSurvivors(candidates, iouThreshold);
  }

  // ---------------------------------------------------------------------------
  // Back to the tile's size

  /** A row with its x corners scaled by `sx` and its y corners by `sy`. */
  function ScaledRow(r: Row, sx: real, sy: real): Row
  {
    r.(box := ScaleBox(r.box, sx, sy))
  }

  /** Scaling keeps confidence and class, and keeps a positive-area box positive. */
  lemma ScaledRowKeeps(r: Row, sx: real, sy: real)
    requires sx > 0.0 && sy > 0.0
    ensures var s := ScaledRow(r, sx, sy);
      && s.confidence == r.confidence && s.classIndex == r.classIndex
      && (PositiveArea(r.box) ==> PositiveArea(s.box))
  {
    if PositiveArea(r.box) {
      ScalePreservesOrder(r.box, sx, sy);
    }
  }

  /** Scaling back by the reciprocal factors restores the row. */
  lemma {:induction false} ScaledRowInverse(r: Row, sx: real, sy: real)
    requires sx > 0.0 && sy > 0.0
    ensures ScaledRow(ScaledRow(r, sx, sy), 1.0 / sx, 1.0 / sy) == r
  {
    var b := ScaledRow(ScaledRow(r, sx, sy), 1.0 / sx, 1.0 / sy).box;
    CancelFactor(r.box.x1, sx);
    CancelFactor(r.box.y1, sy);
    CancelFactor(r.box.x2, sx);
    CancelFactor(r.box.y2, sy);
    assert b == r.box;
  }

  lemma CancelFactor(v: real, k: real)
    requires k > 0.0
    ensures v * k * (1.0 / k) == v
  {
  }

  /**
   * `scale_detections_back_to_input_size`: the corner columns of every row
   * are multiplied in place by the ratio of the tile's size to the model's
   * input size; confidence and class are left alone.
   */
  method ScaleDetectionsBack(detections: array<Row>, originalWidth: nat, originalHeight: nat,
                             inputWidth: nat, inputHeight: nat)
    requires inputWidth > 0 && inputHeight > 0
    modifies detections
    ensures forall i :: 0 <= i < detections.Length ==>
      detections[i] == ScaledRow(old(detections[i]),
                                 originalWidth as real / inputWidth as real,
                                 originalHeight as real / inputHeight as real)
  {
    var widthScalar := originalWidth as real / inputWidth as real;
    var heightScalar := originalHeight as real / inputHeight as real;
    var i := 0;
    while i < detections.Length
      invariant 0 <= i <= detections.Length
      invariant forall m :: 0 <= m < i ==> detections[m] == ScaledRow(old(detections[m]), widthScalar, heightScalar)
      invariant forall m :: i <= m < detections.Length ==> detections[m] == old(detections[m])
    {
      detections[i] := ScaledRow(detections[i], widthScalar, heightScalar);
      i := i + 1;
    }
  }

  // ---------------------------------------------------------------------------
  // Rows to detections (the comprehension at the end of `detect`)

  datatype DetectError =
    | UnknownClass(classIndex: nat)
    | InvalidBox(error: Annotations.AnnotationError)

  /** The class name of a row and the box it becomes, when both exist. */
  predicate Convertible(r: Row, classes: map<nat, string>)
  {
    r.classIndex in classes && r.box.x1 <= r.box.x2 && r.box.y1 <= r.box.y2
  }

  function RowDetection(r: Row, classes: map<nat, string>): Annotations.Detection
    requires r.classIndex in classes
  {
    Annotations.Detection(
      Annotations.BoxAnnotation(Annotations.BoundingBox(classes[r.classIndex], r.box.x1, r.box.y1, r.box.x2, r.box.y2)),
      r.confidence)
  }

  /**
   * Each row becomes a `Detection` of a `BoundingBox` named by the class
   * table, keeping its corners and confidence; the first row whose class is
   * missing (a `KeyError`) or whose box the constructor rejects stops it.
   */
  function RowsToDetections(rows: seq<Row>, classes: map<nat, string>): (r: Result<seq<Annotations.Detection>, DetectError>)
    ensures r.Ok? <==> forall i :: 0 <= i < |rows| ==> Convertible(rows[i], classes)
    ensures r.Ok? ==> |r.value| == |rows|
    ensures r.Ok? ==> forall i :: 0 <= i < |rows| ==>
      rows[i].classIndex in classes && r.value[i] == RowDetection(rows[i], classes)
    ensures r.Err? && r.error.UnknownClass? ==>
      (exists i :: 0 <= i < |rows| && rows[i].classIndex == r.error.classIndex && rows[i].classIndex !in classes)
  {
    if rows == [] then
      Ok([])
    else
      var row := rows[0];
      assert forall i :: 1 <= i < |rows| ==> rows[i] == rows[1..][i - 1];
      if row.classIndex !in classes then
        Err(UnknownClass(row.classIndex))
      else
        var b := Annotations.NewBoundingBox(classes[row.classIndex], row.box.x1, row.box.y1, row.box.x2, row.box.y2);
        if b.Err? then
          Err(InvalidBox(b.error))
        else
          var rest := RowsToDetections(rows[1..], classes);
          if rest.Err? then
            if rest.error.UnknownClass? then
              UnknownClassInTail(rows, classes, rest.error.classIndex);
              rest
            else
              rest
          else
            var d := [Annotations.Detection(Annotations.BoxAnnotation(b.value.value), row.confidence)] + rest.value;
            assert forall i :: 1 <= i < |rows| ==> d[i] == rest.value[i - 1];
            Ok(d)
  }

  /** A row of `rows[1..]` with an unknown class is a row of `rows`. */
  lemma UnknownClassInTail(rows: seq<Row>, classes: map<nat, string>, c: nat)
    requires rows != []
    requires exists i :: 0 <= i < |rows[1..]| && rows[1..][i].classIndex == c && c !in classes
    ensures exists i :: 0 <= i < |rows| && rows[i].classIndex == c && c !in classes
  {
    var i :| 0 <= i < |rows[1..]| && rows[1..][i].classIndex == c && c !in classes;
    assert rows[i + 1] == rows[1..][i];
  }

  /** Rows that come out of post-processing only fail to convert on an unknown class. */
  lemma SurvivorsConvert(rows: seq<Row>, classes: map<nat, string>)
    requires AllPositive(rows)
    ensures RowsToDetections(rows, classes).Ok? <==> forall i :: 0 <= i < |rows| ==> rows[i].classIndex in classes
  {
  }
}
