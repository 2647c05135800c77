/**
 * The parts of the extraction pipeline that decide which points a homography
 * is fitted to, how large a model's tiles are, how detections are carried
 * into the template's frame, and how the two sides' results are merged.
 * The geometry itself (`find_homography`, `homography_transform`,
 * `transform_box`, `transform_keypoint`) is supplied by the caller.
 */
module Extraction {
  import opened Ordering
  import opened Annotations

  /** The size of the blank chart the homographies map onto. */
  const ChartWidth: nat := 3300
  const ChartHeight: nat := 2550

  /** The corner landmarks of each side, in the order they are listed. */
  const IntraoperativeCornerNames: seq<string> := ["anesthesia_start", "safety_checklist", "lateral", "units"]
  const PreoperativeCornerNames: seq<string> := ["patient_profile", "weight", "signature", "disposition"]

  /** `det.annotation.category` and `bb.category`: the sort and filter keys. */
  function DetectionCategory(d: Detection): string { Category(d.annotation) }
  function TemplateCategory(b: BoundingBox): string { b.category }

  // ---------------------------------------------------------------------------
  // Point correspondences (`create_homography_matrix` and the chart wrappers)

  /** The detected corner landmarks, sorted by category. */
  function SourceCorners(detections: seq<Detection>, names: seq<string>): seq<Detection>
  {
    SortByKey(FilterByKey(detections, DetectionCategory, names), DetectionCategory)
  }

  /** The template's corner landmarks, sorted by category. */
  function DestinationCorners(template: seq<BoundingBox>, names: seq<string>): seq<BoundingBox>
  {
    SortByKey(FilterByKey(template, TemplateCategory, names), TemplateCategory)
  }

  /** `src_points`: the centres of the detected corners. */
  function SourcePoints(detections: seq<Detection>, names: seq<string>): seq<Point>
  {
    var c := SourceCorners(detections, names);
    seq(|c|, i requires 0 <= i < |c| => AnnotationCenter(c[i].annotation))
  }

  /** `dest_points`: the centres of the template's corners. */
  function DestinationPoints(template: seq<BoundingBox>, names: seq<string>): seq<Point>
  {
    var c := DestinationCorners(template, names);
    seq(|c|, i requires 0 <= i < |c| => Center(c[i]))
  }

  /** `create_homography_matrix`: fits the homography to the two point lists. */
  function CreateHomographyMatrix<M>(detections: seq<Detection>, names: seq<string>, template: seq<BoundingBox>,
                                     findHomography: (seq<Point>, seq<Point>) -> M): M
  {
    findHomography(SourcePoints(detections, names), DestinationPoints(template, names))
  }

  function CreateIntraoperativeHomographyMatrix<M>(detections: seq<Detection>, template: seq<BoundingBox>,
                                                   findHomography: (seq<Point>, seq<Point>) -> M): M
  {
    CreateHomographyMatrix(detections, IntraoperativeCornerNames, template, findHomography)
  }

  function CreatePreoperativeHomographyMatrix<M>(detections: seq<Detection>, template: seq<BoundingBox>,
                                                 findHomography: (seq<Point>, seq<Point>) -> M): M
  {
    CreateHomographyMatrix(detections, PreoperativeCornerNames, template, findHomography)
  }

  /**
   * `homography_intraoperative_chart` / `homography_preoperative_chart`:
   * warp the photograph with the same correspondences onto the chart's size.
   */
  function HomographyIntraoperativeChart<I>(image: I, detections: seq<Detection>, template: seq<BoundingBox>,
                                            warp: (I, seq<Point>, seq<Point>, nat, nat) -> I): I
  {
    warp(image, DestinationPoints(template, IntraoperativeCornerNames),
         SourcePoints(detections, IntraoperativeCornerNames), ChartWidth, ChartHeight)
  }

  function HomographyPreoperativeChart<I>(image: I, detections: seq<Detection>, template: seq<BoundingBox>,
                                          warp: (I, seq<Point>, seq<Point>, nat, nat) -> I): I
  {
    warp(image, DestinationPoints(template, PreoperativeCornerNames),
         SourcePoints(detections, PreoperativeCornerNames), ChartWidth, ChartHeight)
  }

  /** Each name is the key of exactly one element. */
  predicate OnceEach<T>(s: seq<T>, key: T -> string, names: seq<string>)
  {
    forall n :: n in names ==> multiset(Keys(s, key))[n] == 1
  }

  /**
   * With distinct names, each the category of exactly one detection and of
   * exactly one template box, both sides hold one corner per name and list
   * them in the same (sorted) category order.
   */
  lemma {:induction false} CornersAlign(detections: seq<Detection>, template: seq<BoundingBox>, names: seq<string>)
    requires Distinct(names)
    requires OnceEach(detections, DetectionCategory, names) && OnceEach(template, TemplateCategory, names)
    ensures |SourceCorners(detections, names)| == |DestinationCorners(template, names)| == |names|
    ensures Keys(SourceCorners(detections, names), DetectionCategory)
         == Keys(DestinationCorners(template, names), TemplateCategory)
    ensures Sorted(Keys(SourceCorners(detections, names), DetectionCategory))
    ensures multiset(Keys(SourceCorners(detections, names), DetectionCategory)) == multiset(names)
  {
    SelectionKeys(detections, DetectionCategory, names);
    SelectionKeys(template, TemplateCategory, names);
    SortedUnique(Keys(SourceCorners(detections, names), DetectionCategory),
                 Keys(DestinationCorners(template, names), TemplateCategory));
  }

  /**
   * Every corner is one of the detections, and one of the names; every
   * detection named as a corner is among them.
   */
  lemma {:induction false} SourceCornersFromDetections(detections: seq<Detection>, names: seq<string>)
    ensures forall i :: 0 <= i < |SourceCorners(detections, names)| ==>
      SourceCorners(detections, names)[i] in detections
      && DetectionCategory(SourceCorners(detections, names)[i]) in names
    ensures forall j :: 0 <= j < |detections| && DetectionCategory(detections[j]) in names ==>
      detections[j] in SourceCorners(detections, names)
  {
    var f := FilterByKey(detections, DetectionCategory, names);
    FilterByKeyMembers(detections, DetectionCategory, names);
    SortByKeyPermutes(f, DetectionCategory);
    var c := SourceCorners(detections, names);
    forall j | 0 <= j < |detections| && DetectionCategory(detections[j]) in names
      ensures detections[j] in c
    {
      assert detections[j] in multiset(c);
    }
    forall i | 0 <= i < |c|
      ensures c[i] in detections && DetectionCategory(c[i]) in names
    {
      assert c[i] in multiset(c);
      assert c[i] in multiset(f);
      var j :| 0 <= j < |f| && f[j] == c[i];
    }
  }

  /** The template's corners are exactly its boxes named as corners. */
  lemma {:induction false} DestinationCornersFromTemplate(template: seq<BoundingBox>, names: seq<string>)
    ensures forall i :: 0 <= i < |DestinationCorners(template, names)| ==>
      DestinationCorners(template, names)[i] in template
      && DestinationCorners(template, names)[i].category in names
    ensures forall j :: 0 <= j < |template| && template[j].category in names ==>
      template[j] in DestinationCorners(template, names)
  {
    var f := FilterByKey(template, TemplateCategory, names);
    FilterByKeyMembers(template, TemplateCategory, names);
    SortByKeyPermutes(f, TemplateCategory);
    var c := DestinationCorners(template, names);
    forall i | 0 <= i < |c|
      ensures c[i] in template && c[i].category in names
    {
      assert c[i] in multiset(c);
      assert c[i] in multiset(f);
      var j :| 0 <= j < |f| && f[j] == c[i];
      assert TemplateCategory(f[j]) in names;
    }
    forall j | 0 <= j < |template| && template[j].category in names
      ensures template[j] in c
    {
      assert TemplateCategory(template[j]) in names;
      assert template[j] in multiset(c);
    }
  }

  /**
   * What `find_homography` is given: equally many source and destination
   * points, one pair per name, where the i-th pair is the centre of a
   * detection and the centre of a template box of the same category.
   */
  lemma {:induction false} PointsCorrespond(detections: seq<Detection>, template: seq<BoundingBox>, names: seq<string>)
    requires Distinct(names)
    requires OnceEach(detections, DetectionCategory, names) && OnceEach(template, TemplateCategory, names)
    ensures |SourcePoints(detections, names)| == |DestinationPoints(template, names)| == |names|
    ensures |SourceCorners(detections, names)| == |DestinationCorners(template, names)| == |names|
    ensures forall i :: 0 <= i < |names| ==>
      && SourceCorners(detections, names)[i] in detections
      && DestinationCorners(template, names)[i] in template
      && DetectionCategory(SourceCorners(detections, names)[i]) == TemplateCategory(DestinationCorners(template, names)[i])
      && SourcePoints(detections, names)[i] == AnnotationCenter(SourceCorners(detections, names)[i].annotation)
      && DestinationPoints(template, names)[i] == Center(DestinationCorners(template, names)[i])
  {
    CornersAlign(detections, template, names);
    SourceCornersFromDetections(detections, names);
    DestinationCornersFromTemplate(template, names);
    var sc, dc := SourceCorners(detections, names), DestinationCorners(template, names);
    forall i | 0 <= i < |names|
      ensures DetectionCategory(sc[i]) == TemplateCategory(dc[i])
    {
      assert Keys(sc, DetectionCategory)[i] == Keys(dc, TemplateCategory)[i];
    }
  }

  /** Filtering a list none of whose keys is a name leaves nothing. */
  lemma {:induction false} FilterNone<T>(s: seq<T>, key: T -> string, names: seq<string>)
    requires forall j :: 0 <= j < |s| ==> key(s[j]) !in names
    ensures FilterByKey(s, key, names) == []
  {
    if s != [] {
      FilterNone(s[1..], key, names);
    }
  }

  /** Detections of other categories, before or after, do not change the corners. */
  lemma {:induction false} OtherDetectionsIgnored(detections: seq<Detection>, before: seq<Detection>,
                                                  after: seq<Detection>, names: seq<string>)
    requires forall j :: 0 <= j < |before| ==> DetectionCategory(before[j]) !in names
    requires forall j :: 0 <= j < |after| ==> DetectionCategory(after[j]) !in names
    ensures SourceCorners(before + detections + after, names) == SourceCorners(detections, names)
    ensures SourcePoints(before + detections + after, names) == SourcePoints(detections, names)
  {
    FilterNone(before, DetectionCategory, names);
    FilterNone(after, DetectionCategory, names);
    FilterAppend(before, detections, DetectionCategory, names);
    FilterAppend(before + detections, after, DetectionCategory, names);
    var f := FilterByKey(detections, DetectionCategory, names);
    assert [] + f + [] == f;
  }

  lemma IntraoperativeNamesSorted()
    ensures Distinct(IntraoperativeCornerNames)
    ensures Sorted(["anesthesia_start", "lateral", "safety_checklist", "units"])
    ensures multiset(["anesthesia_start", "lateral", "safety_checklist", "units"]) == multiset(IntraoperativeCornerNames)
  {
    assert StrLe("anesthesia_start", "lateral") && StrLe("lateral", "safety_checklist") && StrLe("safety_checklist", "units");
    SortedFour("anesthesia_start", "lateral", "safety_checklist", "units");
  }

  /** The intraoperative corners are paired in the order anesthesia_start, lateral, safety_checklist, units. */
  lemma {:induction false} IntraoperativeCornerOrder(detections: seq<Detection>, template: seq<BoundingBox>)
    requires OnceEach(detections, DetectionCategory, IntraoperativeCornerNames)
    requires OnceEach(template, TemplateCategory, IntraoperativeCornerNames)
    ensures Keys(SourceCorners(detections, IntraoperativeCornerNames), DetectionCategory)
         == ["anesthesia_start", "lateral", "safety_checklist", "units"]
    ensures Keys(DestinationCorners(template, IntraoperativeCornerNames), TemplateCategory)
         == ["anesthesia_start", "lateral", "safety_checklist", "units"]
  {
    IntraoperativeNamesSorted();
    CornersAlign(detections, template, IntraoperativeCornerNames);
    SortedUnique(Keys(SourceCorners(detections, IntraoperativeCornerNames), DetectionCategory), ["anesthesia_start", "lateral", "safety_checklist", "units"]);
  }

  lemma PreoperativeNamesSorted()
    ensures Distinct(PreoperativeCornerNames)
    ensures Sorted(["disposition", "patient_profile", "signature", "weight"])
    ensures multiset(["disposition", "patient_profile", "signature", "weight"]) == multiset(PreoperativeCornerNames)
  {
    assert StrLe("disposition", "patient_profile") && StrLe("patient_profile", "signature") && StrLe("signature", "weight");
    SortedFour("disposition", "patient_profile", "signature", "weight");
  }

  /** The preoperative corners are paired in the order disposition, patient_profile, signature, weight. */
  lemma {:induction false} PreoperativeCornerOrder(detections: seq<Detection>, template: seq<BoundingBox>)
    requires OnceEach(detections, DetectionCategory, PreoperativeCornerNames)
    requires OnceEach(template, TemplateCategory, PreoperativeCornerNames)
    ensures Keys(SourceCorners(detections, PreoperativeCornerNames), DetectionCategory)
         == ["disposition", "patient_profile", "signature", "weight"]
    ensures Keys(DestinationCorners(template, PreoperativeCornerNames), TemplateCategory)
         == ["disposition", "patient_profile", "signature", "weight"]
  {
    PreoperativeNamesSorted();
    CornersAlign(detections, template, PreoperativeCornerNames);
    SortedUnique(Keys(SourceCorners(detections, PreoperativeCornerNames), DetectionCategory), ["disposition", "patient_profile", "signature", "weight"]);
  }

  /**
   * The chart warps and the matrices fit the same pairs: the warp is handed
   * the template's points and the detected points that `find_homography`
   * receives, with the chart's size.
   */
  lemma ChartsUseMatrixCorrespondences<I, M>(image: I, detections: seq<Detection>, template: seq<BoundingBox>,
                                              warp: (I, seq<Point>, seq<Point>, nat, nat) -> I,
                                              findHomography: (seq<Point>, seq<Point>) -> M)
    ensures var capture := (src: seq<Point>, dst: seq<Point>) => (src, dst);
      && (var (src, dst) := CreateIntraoperativeHomographyMatrix(detections, template, capture);
          HomographyIntraoperativeChart(image, detections, template, warp) == warp(image, dst, src, 3300, 2550))
      && (var (src, dst) := CreatePreoperativeHomographyMatrix(detections, template, capture);
          HomographyPreoperativeChart(image, detections, template, warp) == warp(image, dst, src, 3300, 2550))
  {
  }

  // ---------------------------------------------------------------------------
  // Tile size (`compute_tile_size`)

  /** Python's `int()` on a float: truncation toward zero. */
  function TruncateTowardZero(x: real): (n: int)
    ensures 0.0 <= x ==> 0 <= n && n as real <= x < n as real + 1.0
    ensures x < 0.0 ==> n <= 0 && n as real - 1.0 < x <= n as real
  {
    if x >= 0.0 then x.Floor else -((-x).Floor)
  }

  function MinReal(a: real, b: real): real { if a <= b then a else b }

  /**
   * The tile side for a model trained on tiles of `proportion` of the
   * smaller image side: the smaller scaled side, truncated toward zero.
   */
  function ComputeTileSize(proportion: real, imageWidth: nat, imageHeight: nat): (tile: int)
  {
    TruncateTowardZero(MinReal(imageWidth as real * proportion, imageHeight as real * proportion))
  }

  /**
   * For a non-negative proportion the tile is a non-negative whole number that
   * fits within both scaled sides and is within one of the smaller of them.
   */
  lemma {:induction false} TileSizeBounds(proportion: real, imageWidth: nat, imageHeight: nat)
    requires proportion >= 0.0
    ensures var tile := ComputeTileSize(proportion, imageWidth, imageHeight);
      && 0 <= tile
      && tile as real <= imageWidth as real * proportion
      && tile as real <= imageHeight as real * proportion
      && (imageWidth as real * proportion < tile as real + 1.0 || imageHeight as real * proportion < tile as real + 1.0)
  {
    NonNegativeProduct(imageWidth as real, proportion);
    NonNegativeProduct(imageHeight as real, proportion);
  }

  lemma NonNegativeProduct(a: real, b: real)
    requires a >= 0.0 && b >= 0.0
    ensures a * b >= 0.0
  {
  }

  /** A larger proportion never gives a smaller tile. */
  lemma {:induction false} TileSizeMonotone(p: real, q: real, imageWidth: nat, imageHeight: nat)
    requires 0.0 <= p <= q
    ensures ComputeTileSize(p, imageWidth, imageHeight) <= ComputeTileSize(q, imageWidth, imageHeight)
  {
    ScaledSidesMonotone(imageWidth as real, imageHeight as real, p, q);
    TileSizeFromSides(p, q, imageWidth, imageHeight);
  }

  lemma TileSizeFromSides(p: real, q: real, imageWidth: nat, imageHeight: nat)
    requires 0.0 <= imageWidth as real * p <= imageWidth as real * q
    requires 0.0 <= imageHeight as real * p <= imageHeight as real * q
    ensures ComputeTileSize(p, imageWidth, imageHeight) <= ComputeTileSize(q, imageWidth, imageHeight)
  {
    MinTruncateMonotone(imageWidth as real * p, imageHeight as real * p,
                        imageWidth as real * q, imageHeight as real * q);
  }

  lemma ScaledSidesMonotone(w: real, h: real, p: real, q: real)
    requires w >= 0.0 && h >= 0.0 && 0.0 <= p <= q
    ensures 0.0 <= w * p <= w * q && 0.0 <= h * p <= h * q
  {
    ScaleMonotone(w, p, q);
    ScaleMonotone(h, p, q);
    NonNegativeProduct(w, p);
    NonNegativeProduct(h, p);
  }

  lemma ScaleMonotone(a: real, p: real, q: real)
    requires a >= 0.0 && p <= q
    ensures a * p <= a * q
  {
    NonNegativeProduct(a, q - p);
    assert a * q - a * p == a * (q - p);
  }

  /** Truncating the smaller of two non-negative values is monotone in both. */
  lemma MinTruncateMonotone(a: real, b: real, c: real, d: real)
    requires 0.0 <= a <= c && 0.0 <= b <= d
    ensures TruncateTowardZero(MinReal(a, b)) <= TruncateTowardZero(MinReal(c, d))
  {
    var x, y := MinReal(a, b), MinReal(c, d);
    assert 0.0 <= x <= y;
    assert x.Floor <= y.Floor;
  }

  lemma TileSizeExamples()
    ensures ComputeTileSize(0.5, 3300, 2550) == 1275
    ensures ComputeTileSize(0.1, 3300, 2550) == 255
    ensures ComputeTileSize(0.333, 100, 100) == 33
  {
  }

  // ---------------------------------------------------------------------------
  // Carrying detections into the template's frame (`assign_meaning_*`)

  /**
   * One model's detections, each annotation remapped through `h` and its
   * confidence kept; the remap is chosen by the kind of the first annotation.
   */
  function Corrected<H>(detections: seq<Detection>, h: H,
                        transformBox: (Annotation, H) -> Annotation,
                        transformKeypoint: (Annotation, H) -> Annotation): (r: seq<Detection>)
    requires detections != []
    ensures |r| == |detections|
    ensures forall i :: 0 <= i < |r| ==> r[i].confidence == detections[i].confidence
    ensures detections[0].annotation.BoxAnnotation? ==>
      forall i :: 0 <= i < |r| ==> r[i].annotation == transformBox(detections[i].annotation, h)
    ensures detections[0].annotation.KeypointAnnotation? ==>
      forall i :: 0 <= i < |r| ==> r[i].annotation == transformKeypoint(detections[i].annotation, h)
  {
    var remap := if detections[0].annotation.BoxAnnotation? then transformBox else transformKeypoint;
    seq(|detections|, i requires 0 <= i < |detections| =>
      Detection(remap(detections[i].annotation, h), detections[i].confidence))
  }

  /**
   * The loop over the models' outputs: keys with no detections are dropped,
   * every other key gets its detections remapped.
   */
  method CorrectDetections<H>(detections: map<string, seq<Detection>>, h: H,
                              transformBox: (Annotation, H) -> Annotation,
                              transformKeypoint: (Annotation, H) -> Annotation)
    returns (corrected: map<string, seq<Detection>>)
    ensures corrected.Keys == set k | k in detections && detections[k] != []
    ensures forall k :: k in corrected ==>
      detections[k] != [] && corrected[k] == Corrected(detections[k], h, transformBox, transformKeypoint)
  {
    corrected := map[];
    var remaining := detections.Keys;
    while remaining != {}
      invariant remaining <= detections.Keys
      invariant corrected.Keys == set k | k in detections && k !in remaining && detections[k] != []
      invariant forall k :: k in corrected ==>
        detections[k] != [] && corrected[k] == Corrected(detections[k], h, transformBox, transformKeypoint)
      decreases remaining
    {
      var key :| key in remaining;
      var dets := detections[key];
      if |dets| != 0 {
        var remap := if dets[0].annotation.BoxAnnotation? then transformBox else transformKeypoint;
        corrected := corrected[key := seq(|dets|, i requires 0 <= i < |dets| =>
          Detection(remap(dets[i].annotation, h), dets[i].confidence))];
      }
      remaining := remaining - {key};
    }
  }

  /** With remaps that change nothing, correction only drops the empty keys. */
  lemma {:induction false} IdentityCorrection<H>(detections: map<string, seq<Detection>>, h: H,
                                                 transformBox: (Annotation, H) -> Annotation,
                                                 transformKeypoint: (Annotation, H) -> Annotation,
                                                 k: string)
    requires forall a :: transformBox(a, h) == a && transformKeypoint(a, h) == a
    requires k in detections && detections[k] != []
    ensures Corrected(detections[k], h, transformBox, transformKeypoint) == detections[k]
  {
    var c := Corrected(detections[k], h, transformBox, transformKeypoint);
    forall i | 0 <= i < |c|
      ensures c[i] == detections[k][i]
    {
      assert c[i].annotation == detections[k][i].annotation;
    }
  }

  // ---------------------------------------------------------------------------
  // Merging the two sides (`digitize_sheet`)

  /**
   * `data = dict(); data.update(intraop); data.update(preop)`: every key of
   * either side, the preoperative value winning where both have one.
   */
  method DigitizeSheet<V>(intraop: map<string, V>, preop: map<string, V>) returns (data: map<string, V>)
    ensures data.Keys == intraop.Keys + preop.Keys
    ensures forall k :: k in preop ==> data[k] == preop[k]
    ensures forall k :: k in intraop && k !in preop ==> data[k] == intraop[k]
  {
    data := map[];
    data := data + intraop;
    data := data + preop;
  }

  /** When the two sides share no key, the order of the updates does not matter. */
  lemma {:induction false} DisjointMergeCommutes<V>(intraop: map<string, V>, preop: map<string, V>)
    requires intraop.Keys !! preop.Keys
    ensures intraop + preop == preop + intraop
  {
    forall k | k in intraop + preop
      ensures (intraop + preop)[k] == (preop + intraop)[k]
    {
      if k in preop {
        assert k !in intraop;
      }
    }
  }
}
