/**
 * The annotation value types of the chart extractor: `Point`, `BoundingBox`,
 * `Keypoint`, and the `Detection` that pairs an annotation with a confidence.
 * Construction validates the box (an inverted box is an error, a degenerate
 * one only a warning) and the keypoint (it must lie inside its box); the
 * conversions to and from dictionaries, YOLO lines and COCO annotations return
 * new values and never mutate.
 */
module Annotations {
  import opened Outcome

  datatype Point = Point(x: real, y: real)

  datatype BoundingBox = BoundingBox(category: string, left: real, top: real, right: real, bottom: real)

  /** A point bound to the box that contains it. */
  datatype Keypoint = Keypoint(keypoint: Point, boundingBox: BoundingBox)

  /** What a detector reports: a box, or a box with one keypoint. */
  datatype Annotation = BoxAnnotation(box: BoundingBox) | KeypointAnnotation(kp: Keypoint)

  datatype Detection = Detection(annotation: Annotation, confidence: real)

  /** The exceptions raised by construction and conversion. */
  datatype AnnotationError =
    | LeftGreaterThanRight                      // ValueError
    | TopGreaterThanBottom                      // ValueError
    | KeypointNotInBox                          // ValueError
    | IdNotInIdToCategory(id: int)              // ValueError
    | IdNotInCategories(categoryId: int)        // ValueError
    | CategoryNotInCategoryToId(name: string)   // KeyError
    | KeywordMismatch                           // TypeError: missing or unexpected keyword
    | MissingKey(key: string)                   // KeyError
    | WrongValueKind(key: string)               // TypeError

  /** The UserWarnings emitted for a degenerate (but accepted) box. */
  datatype Warning = LeftEqualsRight | TopEqualsBottom | ParametersEqual

  /** A successfully constructed value together with the warnings its construction emitted. */
  datatype Constructed<+T> = Constructed(value: T, warnings: seq<Warning>)

  // ---------------------------------------------------------------------------
  // BoundingBox construction and derived values

  predicate WellOrdered(b: BoundingBox) {
    b.left <= b.right && b.top <= b.bottom
  }

  /** The warnings of a box whose sides are not inverted. */
  function BoxWarnings(left: real, top: real, right: real, bottom: real): (ws: seq<Warning>)
    ensures ws == [] <==> left != right && top != bottom
    ensures left == right == top == bottom ==> ws == [ParametersEqual]
    ensures !(left == right == top == bottom) ==>
              (LeftEqualsRight in ws <==> left == right) && (TopEqualsBottom in ws <==> top == bottom)
  {
    if left == right == top == bottom then [ParametersEqual]
    else (if left == right then [LeftEqualsRight] else []) + (if top == bottom then [TopEqualsBottom] else [])
  }

  /** `BoundingBox(category, left, top, right, bottom)`: validates, then builds. */
  function NewBoundingBox(category: string, left: real, top: real, right: real, bottom: real)
    : (r: Result<Constructed<BoundingBox>, AnnotationError>)
    ensures r.Ok? <==> left <= right && top <= bottom
    ensures r.Ok? ==> r.value.value == BoundingBox(category, left, top, right, bottom)
    ensures r.Ok? ==> r.value.warnings == BoxWarnings(left, top, right, bottom)
    ensures left > right ==> r == Err(LeftGreaterThanRight)
    ensures left <= right && top > bottom ==> r == Err(TopGreaterThanBottom)
  {
    if left > right then Err(LeftGreaterThanRight)
    else if top > bottom then Err(TopGreaterThanBottom)
    else Ok(Constructed(BoundingBox(category, left, top, right, bottom), BoxWarnings(left, top, right, bottom)))
  }

  /** The `center` property. */
  function Center(b: BoundingBox): (c: Point)
    ensures c.x - b.left == b.right - c.x && c.y - b.top == b.bottom - c.y
    ensures WellOrdered(b) ==> b.left <= c.x <= b.right && b.top <= c.y <= b.bottom
  {
    Point((b.left + b.right) / 2.0, (b.top + b.bottom) / 2.0)
  }

  /** The `box` property: the four sides as a list. */
  function Box(b: BoundingBox): (r: seq<real>)
    ensures |r| == 4 && BoundingBox(b.category, r[0], r[1], r[2], r[3]) == b
  {
    [b.left, b.top, b.right, b.bottom]
  }

  // ---------------------------------------------------------------------------
  // Dictionaries

  /** A JSON-like dictionary value. */
  datatype Value = Num(num: real) | Str(str: string) | Dict(entries: map<string, Value>)

  const BoxKeys: set<string> := {"left", "top", "right", "bottom", "category"}

  /** `BoundingBox.to_dict`: each side under its own name, and the category. */
  function ToDict(b: BoundingBox): (d: map<string, Value>)
    ensures d.Keys == BoxKeys
    ensures d["left"] == Num(b.left) && d["top"] == Num(b.top)
    ensures d["right"] == Num(b.right) && d["bottom"] == Num(b.bottom)
    ensures d["category"] == Str(b.category)
  {
    map["left" := Num(b.left), "top" := Num(b.top), "right" := Num(b.right),
        "bottom" := Num(b.bottom), "category" := Str(b.category)]
  }

  /** Exactly the five keyword arguments, with a name and four numbers. */
  predicate BoxDict(d: map<string, Value>)
  {
    d.Keys == BoxKeys && d["category"].Str?
    && d["left"].Num? && d["top"].Num? && d["right"].Num? && d["bottom"].Num?
  }

  /**
   * `BoundingBox.from_dict`: the dictionary is unpacked as keyword arguments,
   * so a missing or an extra key is a TypeError.
   */
  function FromDict(d: map<string, Value>): (r: Result<Constructed<BoundingBox>, AnnotationError>)
    ensures d.Keys != BoxKeys ==> r == Err(KeywordMismatch)
    ensures r.Ok? ==> ToDict(r.value.value) == d
    ensures r.Ok? <==> BoxDict(d) && d["left"].num <= d["right"].num && d["top"].num <= d["bottom"].num
    ensures r.Ok? ==> BoxDict(d) && r.value.value == BoundingBox(d["category"].str, d["left"].num, d["top"].num,
                                                                 d["right"].num, d["bottom"].num)
  {
    if d.Keys != BoxKeys then Err(KeywordMismatch)
    else if !d["category"].Str? then Err(WrongValueKind("category"))
    else if !d["left"].Num? then Err(WrongValueKind("left"))
    else if !d["top"].Num? then Err(WrongValueKind("top"))
    else if !d["right"].Num? then Err(WrongValueKind("right"))
    else if !d["bottom"].Num? then Err(WrongValueKind("bottom"))
    else NewBoundingBox(d["category"].str, d["left"].num, d["top"].num, d["right"].num, d["bottom"].num)
  }

  /** Converting a valid box to a dictionary and back rebuilds the same box. */
  lemma DictRoundTrip(b: BoundingBox)
    requires WellOrdered(b)
    ensures FromDict(ToDict(b)) == Ok(Constructed(b, BoxWarnings(b.left, b.top, b.right, b.bottom)))
  {
  }

  // ---------------------------------------------------------------------------
  // YOLO lines (the numbers of one line; the text formatting is not modelled)

  /** `class x_center y_center width height`, all but the class normalised to [0,1]. */
  datatype YoloBox = YoloBox(classId: int, xCenter: real, yCenter: real, width: real, height: real)

  /** `BoundingBox.from_yolo`: scale by the image size, then convert centre/size to corners. */
  function FromYolo(line: YoloBox, imageWidth: nat, imageHeight: nat, idToCategory: map<int, string>)
    : (r: Result<Constructed<BoundingBox>, AnnotationError>)
    ensures line.classId !in idToCategory ==> r == Err(IdNotInIdToCategory(line.classId))
    ensures r.Ok? <==> line.classId in idToCategory && line.width * imageWidth as real >= 0.0
                       && line.height * imageHeight as real >= 0.0
    ensures r.Ok? ==>
              var b := r.value.value;
              && r.value.warnings == BoxWarnings(b.left, b.top, b.right, b.bottom)
              && b.category == idToCategory[line.classId]
  {
    if line.classId !in idToCategory then Err(IdNotInIdToCategory(line.classId))
    else
      var x := line.xCenter * imageWidth as real;
      var y := line.yCenter * imageHeight as real;
      var w := line.width * imageWidth as real;
      var h := line.height * imageHeight as real;
      NewBoundingBox(idToCategory[line.classId], x - w / 2.0, y - h / 2.0, x + w / 2.0, y + h / 2.0)
  }

  /** `BoundingBox.to_yolo`: the normalised centre and size. */
  function ToYolo(b: BoundingBox, imageWidth: nat, imageHeight: nat, categoryToId: map<string, int>)
    : (r: Result<YoloBox, AnnotationError>)
    requires imageWidth > 0 && imageHeight > 0
    ensures b.category !in categoryToId ==> r == Err(CategoryNotInCategoryToId(b.category))
    ensures b.category in categoryToId ==> r.Ok? && r.value.classId == categoryToId[b.category]
  {
    if b.category !in categoryToId then Err(CategoryNotInCategoryToId(b.category))
    else
      var c := Center(b);
      Ok(YoloBox(categoryToId[b.category],
                 c.x / imageWidth as real, c.y / imageHeight as real,
                 (b.right - b.left) / imageWidth as real, (b.bottom - b.top) / imageHeight as real))
  }

  /** The box read from a line has the line's centre and size, scaled by the image size. */
  lemma {:induction false} FromYoloGeometry(line: YoloBox, imageWidth: nat, imageHeight: nat, idToCategory: map<int, string>)
    requires FromYolo(line, imageWidth, imageHeight, idToCategory).Ok?
    ensures var b := FromYolo(line, imageWidth, imageHeight, idToCategory).value.value;
      && Center(b) == Point(line.xCenter * imageWidth as real, line.yCenter * imageHeight as real)
      && b.right - b.left == line.width * imageWidth as real
      && b.bottom - b.top == line.height * imageHeight as real
  {
    var x, w := line.xCenter * imageWidth as real, line.width * imageWidth as real;
    var y, h := line.yCenter * imageHeight as real, line.height * imageHeight as real;
    CornersFromCentre(x, w);
    CornersFromCentre(y, h);
  }

  lemma CornersFromCentre(c: real, len: real)
    ensures ((c - len / 2.0) + (c + len / 2.0)) / 2.0 == c && (c + len / 2.0) - (c - len / 2.0) == len
  {
  }

  /** The line written for a box holds its centre and size divided by the image size. */
  lemma {:induction false} ToYoloGeometry(b: BoundingBox, imageWidth: nat, imageHeight: nat, categoryToId: map<string, int>)
    requires imageWidth > 0 && imageHeight > 0 && b.category in categoryToId
    ensures var r := ToYolo(b, imageWidth, imageHeight, categoryToId).value;
      && r.xCenter * imageWidth as real == Center(b).x
      && r.yCenter * imageHeight as real == Center(b).y
      && r.width * imageWidth as real == b.right - b.left
      && r.height * imageHeight as real == b.bottom - b.top
  {
    var W, H := imageWidth as real, imageHeight as real;
    DivideThenScale(Center(b).x, W);
    DivideThenScale(Center(b).y, H);
    DivideThenScale(b.right - b.left, W);
    DivideThenScale(b.bottom - b.top, H);
  }

  lemma DivideThenScale(v: real, k: real)
    requires k > 0.0
    ensures v / k * k == v
  {
  }

  /** Normalising a side's midpoint and length by `k` and scaling back recovers the side. */
  lemma NormalisedSideRecovers(lo: real, hi: real, k: real, mid: real, len: real)
    requires k > 0.0 && mid == ((lo + hi) / 2.0) / k && len == (hi - lo) / k
    ensures mid * k == (lo + hi) / 2.0 && len * k == hi - lo
    ensures mid * k - (len * k) / 2.0 == lo && mid * k + (len * k) / 2.0 == hi
  {
    assert mid * k == (lo + hi) / 2.0;
    assert len * k == hi - lo;
  }

  /** `to_yolo` followed by `from_yolo` gives back the box, when the two category maps agree. */
  lemma {:induction false} YoloRoundTrip(b: BoundingBox, imageWidth: nat, imageHeight: nat,
                                         categoryToId: map<string, int>, idToCategory: map<int, string>)
    requires WellOrdered(b) && imageWidth > 0 && imageHeight > 0
    requires b.category in categoryToId && categoryToId[b.category] in idToCategory
    requires idToCategory[categoryToId[b.category]] == b.category
    ensures ToYolo(b, imageWidth, imageHeight, categoryToId).Ok?
    ensures FromYolo(ToYolo(b, imageWidth, imageHeight, categoryToId).value, imageWidth, imageHeight, idToCategory)
            == Ok(Constructed(b, BoxWarnings(b.left, b.top, b.right, b.bottom)))
  {
    var line := ToYolo(b, imageWidth, imageHeight, categoryToId).value;
    var W, H := imageWidth as real, imageHeight as real;
    NormalisedSideRecovers(b.left, b.right, W, line.xCenter, line.width);
    NormalisedSideRecovers(b.top, b.bottom, H, line.yCenter, line.height);
    var r := FromYolo(line, imageWidth, imageHeight, idToCategory);
    assert r.Ok?;
    assert r.value.value == b;
    assert r.value.warnings == BoxWarnings(b.left, b.top, b.right, b.bottom);
  }

  /** `from_yolo` followed by `to_yolo` gives back the line, when the two category maps agree. */
  lemma {:induction false} YoloLineRoundTrip(line: YoloBox, imageWidth: nat, imageHeight: nat,
                                             idToCategory: map<int, string>, categoryToId: map<string, int>)
    requires imageWidth > 0 && imageHeight > 0 && line.width >= 0.0 && line.height >= 0.0
    requires line.classId in idToCategory && idToCategory[line.classId] in categoryToId
    requires categoryToId[idToCategory[line.classId]] == line.classId
    ensures FromYolo(line, imageWidth, imageHeight, idToCategory).Ok?
    ensures ToYolo(FromYolo(line, imageWidth, imageHeight, idToCategory).value.value,
                   imageWidth, imageHeight, categoryToId) == Ok(line)
  {
    FromYoloCorners(line, imageWidth, imageHeight, idToCategory);
    ToYoloOfCorners(FromYolo(line, imageWidth, imageHeight, idToCategory).value.value,
                    imageWidth, imageHeight, categoryToId, line);
  }

  /** A line of non-negative size is read as the box with its scaled centre and size as corners. */
  lemma FromYoloCorners(line: YoloBox, imageWidth: nat, imageHeight: nat, idToCategory: map<int, string>)
    requires line.width >= 0.0 && line.height >= 0.0 && line.classId in idToCategory
    ensures FromYolo(line, imageWidth, imageHeight, idToCategory).Ok?
    ensures var b := FromYolo(line, imageWidth, imageHeight, idToCategory).value.value;
      && b.category == idToCategory[line.classId]
      && b.left == line.xCenter * imageWidth as real - line.width * imageWidth as real / 2.0
      && b.right == line.xCenter * imageWidth as real + line.width * imageWidth as real / 2.0
      && b.top == line.yCenter * imageHeight as real - line.height * imageHeight as real / 2.0
      && b.bottom == line.yCenter * imageHeight as real + line.height * imageHeight as real / 2.0
  {
    NonNegativeScale(line.width, imageWidth as real);
    NonNegativeScale(line.height, imageHeight as real);
  }

  /** A box whose corners are a line's centre and size scaled by the image size is written as that line. */
  lemma ToYoloOfCorners(b: BoundingBox, imageWidth: nat, imageHeight: nat, categoryToId: map<string, int>, line: YoloBox)
    requires imageWidth > 0 && imageHeight > 0
    requires b.category in categoryToId && categoryToId[b.category] == line.classId
    requires b.left == line.xCenter * imageWidth as real - line.width * imageWidth as real / 2.0
    requires b.right == line.xCenter * imageWidth as real + line.width * imageWidth as real / 2.0
    requires b.top == line.yCenter * imageHeight as real - line.height * imageHeight as real / 2.0
    requires b.bottom == line.yCenter * imageHeight as real + line.height * imageHeight as real / 2.0
    ensures ToYolo(b, imageWidth, imageHeight, categoryToId) == Ok(line)
  {
    AxisLineRecovers(line.xCenter, line.width, imageWidth as real, b.left, b.right);
    AxisLineRecovers(line.yCenter, line.height, imageHeight as real, b.top, b.bottom);
  }

  /**
   * The corners of a side scaled from a normalised centre and length by `k`,
   * normalised again, give back that centre and length.
   */
  lemma AxisLineRecovers(mid: real, len: real, k: real, lo: real, hi: real)
    requires k > 0.0 && lo == mid * k - len * k / 2.0 && hi == mid * k + len * k / 2.0
    ensures (lo + hi) / 2.0 / k == mid
    ensures (hi - lo) / k == len
  {
    assert (lo + hi) / 2.0 == mid * k;
    assert hi - lo == len * k;
  }

  lemma NonNegativeScale(a: real, k: real)
    requires a >= 0.0 && k >= 0.0
    ensures a * k >= 0.0
  {
  }

  // ---------------------------------------------------------------------------
  // COCO

  /** A COCO `bbox` is `[x, y, width, height]` with (x, y) the top-left corner. */
  datatype CocoBox = CocoBox(x: real, y: real, width: real, height: real)
  datatype CocoAnnotation = CocoAnnotation(id: int, imageId: int, categoryId: int, bbox: CocoBox)
  datatype CocoCategory = CocoCategory(id: int, name: string)

  /** The name of the first category in the list with the given id. */
  function CategoryName(categories: seq<CocoCategory>, id: int): (r: Option<string>)
    ensures r.None? <==> forall c :: c in categories ==> c.id != id
    ensures r.Some? ==> CocoCategory(id, r.value) in categories
  {
    if categories == [] then None
    else if categories[0].id == id then Some(categories[0].name)
    else CategoryName(categories[1..], id)
  }

  /** `BoundingBox.from_coco`. */
  function FromCoco(annotation: CocoAnnotation, categories: seq<CocoCategory>)
    : (r: Result<Constructed<BoundingBox>, AnnotationError>)
    ensures r == Err(IdNotInCategories(annotation.categoryId)) <==>
              forall c :: c in categories ==> c.id != annotation.categoryId
    ensures (exists c :: c in categories && c.id == annotation.categoryId) ==>
              && (annotation.bbox.width >= 0.0 && annotation.bbox.height >= 0.0 ==> r.Ok?)
              && (annotation.bbox.width < 0.0 ==> r == Err(LeftGreaterThanRight))
              && (annotation.bbox.width >= 0.0 && annotation.bbox.height < 0.0 ==> r == Err(TopGreaterThanBottom))
    ensures r.Ok? ==>
              var b := r.value.value;
              && CocoCategory(annotation.categoryId, b.category) in categories
              && b.left == annotation.bbox.x && b.top == annotation.bbox.y
              && b.right - b.left == annotation.bbox.width && b.bottom - b.top == annotation.bbox.height
              && r.value.warnings == BoxWarnings(b.left, b.top, b.right, b.bottom)
  {
    match CategoryName(categories, annotation.categoryId)
    case None => Err(IdNotInCategories(annotation.categoryId))
    case Some(name) =>
      var bb := annotation.bbox;
      NewBoundingBox(name, bb.x, bb.y, bb.x + bb.width, bb.y + bb.height)
  }

  // ---------------------------------------------------------------------------
  // Keypoint

  predicate Contains(b: BoundingBox, p: Point) {
    b.left <= p.x <= b.right && b.top <= p.y <= b.bottom
  }

  /** `Keypoint(point, bounding_box)`: the point must lie in the box's extent. */
  function NewKeypoint(p: Point, b: BoundingBox): (r: Result<Keypoint, AnnotationError>)
    ensures r.Ok? <==> Contains(b, p)
    ensures r.Ok? ==> r.value == Keypoint(p, b)
    ensures r.Err? ==> r.error == KeypointNotInBox
  {
    if p.x < b.left || p.x > b.right || p.y < b.top || p.y > b.bottom then Err(KeypointNotInBox)
    else Ok(Keypoint(p, b))
  }

  /** A point outside the box on either axis is rejected, whatever the other coordinate. */
  lemma KeypointOutsideRejected(p: Point, b: BoundingBox)
    requires p.x < b.left || b.right < p.x || p.y < b.top || b.bottom < p.y
    ensures NewKeypoint(p, b) == Err(KeypointNotInBox)
  {
  }

  function KeypointToDict(k: Keypoint): (d: map<string, Value>)
    ensures d.Keys == {"keypoint", "bounding_box"}
    ensures d["keypoint"].Dict? && d["keypoint"].entries.Keys == {"x", "y"}
    ensures d["keypoint"].entries["x"] == Num(k.keypoint.x) && d["keypoint"].entries["y"] == Num(k.keypoint.y)
    ensures d["bounding_box"] == Dict(ToDict(k.boundingBox))
  {
    map["keypoint" := Dict(map["x" := Num(k.keypoint.x), "y" := Num(k.keypoint.y)]),
        "bounding_box" := Dict(ToDict(k.boundingBox))]
  }

  /** Both entries present as dictionaries, the point one holding numeric `x` and `y`. */
  predicate KeypointDict(d: map<string, Value>)
  {
    && "keypoint" in d && "bounding_box" in d && d["keypoint"].Dict? && d["bounding_box"].Dict?
    && "x" in d["keypoint"].entries && d["keypoint"].entries["x"].Num?
    && "y" in d["keypoint"].entries && d["keypoint"].entries["y"].Num?
  }

  /** `Keypoint.from_dict`: the point from `keypoint`, the box by `BoundingBox.from_dict`. */
  function KeypointFromDict(d: map<string, Value>): (r: Result<Keypoint, AnnotationError>)
    ensures r.Ok? <==>
              && KeypointDict(d)
              && FromDict(d["bounding_box"].entries).Ok?
              && Contains(FromDict(d["bounding_box"].entries).value.value,
                          Point(d["keypoint"].entries["x"].num, d["keypoint"].entries["y"].num))
    ensures "keypoint" !in d ==> r == Err(MissingKey("keypoint"))
    ensures KeypointDict(d) && FromDict(d["bounding_box"].entries).Err? ==>
              r == Err(FromDict(d["bounding_box"].entries).error)
    ensures r.Ok? ==> Contains(r.value.boundingBox, r.value.keypoint)
    ensures r.Ok? ==>
              && "keypoint" in d && d["keypoint"].Dict?
              && "x" in d["keypoint"].entries && d["keypoint"].entries["x"].Num?
              && "y" in d["keypoint"].entries && d["keypoint"].entries["y"].Num?
              && r.value.keypoint == Point(d["keypoint"].entries["x"].num, d["keypoint"].entries["y"].num)
    ensures r.Ok? ==>
              && "bounding_box" in d && d["bounding_box"].Dict?
              && FromDict(d["bounding_box"].entries).Ok?
              && r.value.boundingBox == FromDict(d["bounding_box"].entries).value.value
  {
    if "keypoint" !in d then Err(MissingKey("keypoint"))
    else if "bounding_box" !in d then Err(MissingKey("bounding_box"))
    else if !d["keypoint"].Dict? then Err(WrongValueKind("keypoint"))
    else if !d["bounding_box"].Dict? then Err(WrongValueKind("bounding_box"))
    else
      var pd := d["keypoint"].entries;
      if "x" !in pd then Err(MissingKey("x"))
      else if "y" !in pd then Err(MissingKey("y"))
      else if !pd["x"].Num? then Err(WrongValueKind("x"))
      else if !pd["y"].Num? then Err(WrongValueKind("y"))
      else match FromDict(d["bounding_box"].entries)
        case Err(e) => Err(e)
        case Ok(b) => NewKeypoint(Point(pd["x"].num, pd["y"].num), b.value)
  }

  /** Converting a valid keypoint to a dictionary and back rebuilds it. */
  lemma KeypointDictRoundTrip(k: Keypoint)
    requires WellOrdered(k.boundingBox) && Contains(k.boundingBox, k.keypoint)
    ensures KeypointFromDict(KeypointToDict(k)) == Ok(k)
  {
    DictRoundTrip(k.boundingBox);
  }

  /** A YOLO pose line: the box fields followed by the normalised keypoint. */
  datatype YoloKeypoint = YoloKeypoint(box: YoloBox, xKeypoint: real, yKeypoint: real)

  /** `Keypoint.from_yolo`: the point is scaled by the same image size as the box. */
  function KeypointFromYolo(line: YoloKeypoint, imageWidth: nat, imageHeight: nat, idToCategory: map<int, string>)
    : (r: Result<Keypoint, AnnotationError>)
    ensures r.Ok? <==>
              && FromYolo(line.box, imageWidth, imageHeight, idToCategory).Ok?
              && Contains(FromYolo(line.box, imageWidth, imageHeight, idToCategory).value.value,
                          Point(line.xKeypoint * imageWidth as real, line.yKeypoint * imageHeight as real))
    ensures FromYolo(line.box, imageWidth, imageHeight, idToCategory).Err? ==>
              r == Err(FromYolo(line.box, imageWidth, imageHeight, idToCategory).error)
    ensures r.Ok? ==>
              && r.value.keypoint == Point(line.xKeypoint * imageWidth as real, line.yKeypoint * imageHeight as real)
              && FromYolo(line.box, imageWidth, imageHeight, idToCategory) == Ok(Constructed(r.value.boundingBox, BoxWarnings(r.value.boundingBox.left, r.value.boundingBox.top, r.value.boundingBox.right, r.value.boundingBox.bottom)))
              && Contains(r.value.boundingBox, r.value.keypoint)
  {
    match FromYolo(line.box, imageWidth, imageHeight, idToCategory)
    case Err(e) => Err(e)
    case Ok(b) => NewKeypoint(Point(line.xKeypoint * imageWidth as real, line.yKeypoint * imageHeight as real), b.value)
  }

  /** `Keypoint.to_yolo`: the box's line followed by the normalised point. */
  function KeypointToYolo(k: Keypoint, imageWidth: nat, imageHeight: nat, categoryToId: map<string, int>)
    : (r: Result<YoloKeypoint, AnnotationError>)
    requires imageWidth > 0 && imageHeight > 0
    ensures r.Ok? <==> k.boundingBox.category in categoryToId
    ensures r.Ok? ==>
              && Ok(r.value.box) == ToYolo(k.boundingBox, imageWidth, imageHeight, categoryToId)
              && r.value.xKeypoint * imageWidth as real == k.keypoint.x
              && r.value.yKeypoint * imageHeight as real == k.keypoint.y
  {
    match ToYolo(k.boundingBox, imageWidth, imageHeight, categoryToId)
    case Err(e) => Err(e)
    case Ok(line) => Ok(YoloKeypoint(line, k.keypoint.x / imageWidth as real, k.keypoint.y / imageHeight as real))
  }

  /** `to_yolo` followed by `from_yolo` gives back a valid keypoint. */
  lemma {:induction false} KeypointYoloRoundTrip(k: Keypoint, imageWidth: nat, imageHeight: nat,
                                                 categoryToId: map<string, int>, idToCategory: map<int, string>)
    requires WellOrdered(k.boundingBox) && Contains(k.boundingBox, k.keypoint)
    requires imageWidth > 0 && imageHeight > 0
    requires k.boundingBox.category in categoryToId && categoryToId[k.boundingBox.category] in idToCategory
    requires idToCategory[categoryToId[k.boundingBox.category]] == k.boundingBox.category
    ensures KeypointToYolo(k, imageWidth, imageHeight, categoryToId).Ok?
    ensures KeypointFromYolo(KeypointToYolo(k, imageWidth, imageHeight, categoryToId).value,
                             imageWidth, imageHeight, idToCategory) == Ok(k)
  {
    YoloRoundTrip(k.boundingBox, imageWidth, imageHeight, categoryToId, idToCategory);
    var line := KeypointToYolo(k, imageWidth, imageHeight, categoryToId).value;
    assert line.xKeypoint * imageWidth as real == k.keypoint.x;
    assert line.yKeypoint * imageHeight as real == k.keypoint.y;
    var fb := FromYolo(line.box, imageWidth, imageHeight, idToCategory);
    assert fb.Ok? && fb.value.value == k.boundingBox;
    var p := Point(line.xKeypoint * imageWidth as real, line.yKeypoint * imageHeight as real);
    assert p == k.keypoint;
    var r := KeypointFromYolo(line, imageWidth, imageHeight, idToCategory);
    assert r.Ok? && r.value == Keypoint(p, fb.value.value);
  }

  // ---------------------------------------------------------------------------
  // The worked examples: one box (0, 0, 1, 1) of category "Test" in a 2x2 image

  lemma YoloExamples()
    ensures FromYolo(YoloBox(0, 0.25, 0.25, 0.5, 0.5), 2, 2, map[0 := "Test"])
            == Ok(Constructed(BoundingBox("Test", 0.0, 0.0, 1.0, 1.0), []))
    ensures FromYolo(YoloBox(0, 0.25, 0.25, 0.5, 0.5), 2, 2, map[1 := "Test"]) == Err(IdNotInIdToCategory(0))
    ensures ToYolo(BoundingBox("Test", 0.0, 0.0, 1.0, 1.0), 2, 2, map["Test" := 0]) == Ok(YoloBox(0, 0.25, 0.25, 0.5, 0.5))
    ensures KeypointFromYolo(YoloKeypoint(YoloBox(0, 0.25, 0.25, 0.5, 0.5), 0.125, 0.125), 2, 2, map[0 := "Test"])
            == Ok(Keypoint(Point(0.25, 0.25), BoundingBox("Test", 0.0, 0.0, 1.0, 1.0)))
    ensures KeypointToYolo(Keypoint(Point(0.25, 0.25), BoundingBox("Test", 0.0, 0.0, 1.0, 1.0)), 2, 2, map["Test" := 0])
            == Ok(YoloKeypoint(YoloBox(0, 0.25, 0.25, 0.5, 0.5), 0.125, 0.125))
  {
    var r := FromYolo(YoloBox(0, 0.25, 0.25, 0.5, 0.5), 2, 2, map[0 := "Test"]);
    assert r.Ok? && r.value.value == BoundingBox("Test", 0.0, 0.0, 1.0, 1.0) && r.value.warnings == [];
    var k := KeypointFromYolo(YoloKeypoint(YoloBox(0, 0.25, 0.25, 0.5, 0.5), 0.125, 0.125), 2, 2, map[0 := "Test"]);
    assert k.Ok? && k.value == Keypoint(Point(0.25, 0.25), BoundingBox("Test", 0.0, 0.0, 1.0, 1.0));
  }

  /** The dictionaries of the tests: a box read and written, and a keypoint read and written. */
  lemma DictExamples()
    ensures FromDict(map["left" := Num(1.0), "right" := Num(2.0), "top" := Num(3.0), "bottom" := Num(4.0),
                         "category" := Str("Test")])
            == Ok(Constructed(BoundingBox("Test", 1.0, 3.0, 2.0, 4.0), []))
    ensures ToDict(BoundingBox("Test", 0.0, 2.0, 1.0, 3.0))
            == map["left" := Num(0.0), "right" := Num(1.0), "top" := Num(2.0), "bottom" := Num(3.0),
                   "category" := Str("Test")]
    ensures KeypointFromDict(map["keypoint" := Dict(map["x" := Num(0.5), "y" := Num(2.25)]),
                                 "bounding_box" := Dict(map["left" := Num(0.0), "right" := Num(1.0), "top" := Num(2.0),
                                                            "bottom" := Num(3.0), "category" := Str("Test")])])
            == Ok(Keypoint(Point(0.5, 2.25), BoundingBox("Test", 0.0, 2.0, 1.0, 3.0)))
    ensures KeypointToDict(Keypoint(Point(0.5, 2.25), BoundingBox("Test", 0.0, 2.0, 1.0, 3.0)))
            == map["keypoint" := Dict(map["x" := Num(0.5), "y" := Num(2.25)]),
                   "bounding_box" := Dict(map["left" := Num(0.0), "top" := Num(2.0), "right" := Num(1.0),
                                              "bottom" := Num(3.0), "category" := Str("Test")])]
  {
  }

  lemma CocoExamples()
    ensures FromCoco(CocoAnnotation(0, 0, 0, CocoBox(0.0, 0.0, 1.0, 1.0)), [CocoCategory(0, "Test")])
            == Ok(Constructed(BoundingBox("Test", 0.0, 0.0, 1.0, 1.0), []))
    ensures FromCoco(CocoAnnotation(0, 0, 0, CocoBox(0.0, 0.0, 1.0, 1.0)), [CocoCategory(1, "Test")])
            == Err(IdNotInCategories(0))
  {
    var r := FromCoco(CocoAnnotation(0, 0, 0, CocoBox(0.0, 0.0, 1.0, 1.0)), [CocoCategory(0, "Test")]);
    assert r.Ok? && r.value.value == BoundingBox("Test", 0.0, 0.0, 1.0, 1.0) && r.value.warnings == [];
  }

  lemma ValidationExamples()
    ensures NewBoundingBox("Test", 1.0, 0.0, 0.0, 1.0) == Err(LeftGreaterThanRight)
    ensures NewBoundingBox("Test", 0.0, 1.0, 1.0, 0.0) == Err(TopGreaterThanBottom)
    ensures NewBoundingBox("Test", 0.0, 0.0, 0.0, 1.0).Ok?
    ensures NewBoundingBox("Test", 0.0, 0.0, 0.0, 1.0).value.warnings == [LeftEqualsRight]
    ensures NewBoundingBox("Test", 0.0, 0.0, 1.0, 0.0).value.warnings == [TopEqualsBottom]
    ensures NewBoundingBox("Test", 0.0, 0.0, 0.0, 0.0).value.warnings == [ParametersEqual]
    ensures Center(BoundingBox("Test", 0.0, 0.0, 1.0, 1.0)) == Point(0.5, 0.5)
    ensures NewKeypoint(Point(1.0, 1.0), BoundingBox("Test", 2.0, 0.0, 3.0, 2.0)).Err?
    ensures NewKeypoint(Point(4.0, 1.0), BoundingBox("Test", 2.0, 0.0, 3.0, 2.0)).Err?
    ensures NewKeypoint(Point(1.0, 1.0), BoundingBox("Test", 0.0, 2.0, 2.0, 3.0)).Err?
    ensures NewKeypoint(Point(1.0, 4.0), BoundingBox("Test", 0.0, 2.0, 2.0, 3.0)).Err?
  {
  }

  // ---------------------------------------------------------------------------
  // Annotation accessors used by the extraction code

  /** The box an annotation stands on: its own, or the box of its keypoint. */
  function AnnotationBox(a: Annotation): BoundingBox {
    match a
    case BoxAnnotation(b) => b
    case KeypointAnnotation(k) => k.boundingBox
  }

  /** `annotation.category`: the category of the annotation's box. */
  function Category(a: Annotation): (c: string)
    ensures c == AnnotationBox(a).category
  {
    match a
    case BoxAnnotation(b) => b.category
    case KeypointAnnotation(k) => k.boundingBox.category
  }

  /**
   * `annotation.center`: the centre of the annotation's box, also for a
   * keypoint, whose own point is not used.
   */
  function AnnotationCenter(a: Annotation): (p: Point)
    ensures p.x - AnnotationBox(a).left == AnnotationBox(a).right - p.x
    ensures p.y - AnnotationBox(a).top == AnnotationBox(a).bottom - p.y
    ensures WellOrdered(AnnotationBox(a)) ==>
      AnnotationBox(a).left <= p.x <= AnnotationBox(a).right && AnnotationBox(a).top <= p.y <= AnnotationBox(a).bottom
  {
    match a
    case BoxAnnotation(b) => Center(b)
    case KeypointAnnotation(k) => Center(k.boundingBox)
  }
}
