# ChartExtractor core in Dafny

ChartExtractor digitises paper anesthesia records from smartphone photographs.
A YOLOv11 detector finds landmarks, handwriting and checkboxes on each tile of
the photograph. The corner landmarks are then matched with the landmarks of a
blank template and give a homography, which carries every detection into the
template's frame. Finally the two sides of the sheet are read and merged into
one dictionary.

This project models the parts of that pipeline that decide what comes out:

- **Annotation values** (`annotations.dfy`, module `Annotations`): `Point`,
  `BoundingBox`, `Keypoint` and `Detection`, with their validation,
  degenerate-box warnings, centre, and conversions to and from
  dictionaries, YOLO lines and COCO annotations.
- **Intersection over union** (`iou.dfy`, module `BoxIou`): `batch_iou` on
  corner-form boxes.
- **Non-maximum suppression** (`nms.dfy`, module `Suppression`): the
  descending argsort, the greedy suppression loop over a boolean mask
  (imperative, on an `array<bool>`), the scatter back to caller order, and
  `predictions[mask]`.
- **Post-processing** (`postprocess.dfy`, module `YoloPostprocess`): the
  confidence filter, centre/size to corners, best score and first argmax.
  Also the in-place rescaling of the detection array to the tile's size, and
  the conversion of each row into a `Detection`.
- **Extraction** (`extraction.dfy`, module `Extraction`):
  - the corner correspondences handed to `find_homography` and to
    `homography_transform`, on both sides of the chart;
  - `compute_tile_size`, with Python's truncating `int()`;
  - the loop that remaps each model's detections through the homography;
  - the merge of the two sides in `digitize_sheet`.
- **Python's ordering of strings and its stable `sorted`** (`ordering.dfy`,
  module `Ordering`), which the corner selection is built on.
- `outcome.dfy` (module `Outcome`) holds the `Result` and `Option` types that
  model raised exceptions.

Collaborators whose code is not part of this model are function-valued
parameters: `find_homography`, `homography_transform`, `transform_box`,
`transform_keypoint`, and the template boxes read by `label_studio_to_bboxes`.

## Model

| member | source | states |
|---|---|---|
| Annotations.NewBoundingBox | tests/unit_tests/test_annotations.py:94-118 | construction fails exactly when left > right (checked first) or top > bottom; otherwise the box keeps its fields and carries the warnings of `BoxWarnings` |
| Annotations.BoxWarnings | tests/unit_tests/test_annotations.py:104-118 | no warning unless a side is degenerate; all four equal gives only the "parameters equal" warning; otherwise left==right and top==bottom warn independently |
| Annotations.ValidationExamples | tests/unit_tests/test_annotations.py:94-124 | the test cases: both inversions raise, each degenerate box warns as the tests expect, the unit box's centre is (0.5, 0.5), and the four out-of-box keypoints are rejected |
| Annotations.Center | tests/unit_tests/test_annotations.py:120-124 | the centre is equidistant from opposite sides and lies inside a well-ordered box |
| Annotations.Box | tests/unit_tests/test_annotations.py:126-129 | `box` lists left, top, right, bottom: four values that rebuild the box |
| Annotations.ToDict | tests/unit_tests/test_annotations.py:131-142 | the dictionary has exactly the keys left, top, right, bottom, category, and each side is stored under its own name |
| Annotations.FromDict | tests/unit_tests/test_annotations.py:18-42 | any key set other than the five box keys is a TypeError; it succeeds exactly when the five keys hold a name and four numbers with left ≤ right and top ≤ bottom; the box is then built from the `category`, `left`, `top`, `right` and `bottom` entries, and converts back to the same dictionary |
| Annotations.DictRoundTrip | tests/unit_tests/test_annotations.py:18-28 | `from_dict(to_dict(b))` gives back `b` (with its warnings) |
| Annotations.FromYolo | tests/unit_tests/test_annotations.py:44-66 | an id missing from `id_to_category` is an error; it succeeds exactly when the id is known and the scaled size is non-negative, and then the box is named by that id's category |
| Annotations.FromYoloGeometry | tests/unit_tests/test_annotations.py:44-54 | the box read from a line has the line's centre and size scaled by the image size |
| Annotations.ToYolo | tests/unit_tests/test_annotations.py:144-152 | a category missing from `category_to_id` is an error; a known one succeeds with that category's id |
| Annotations.ToYoloGeometry | tests/unit_tests/test_annotations.py:144-152 | the line's centre and size, scaled back by the image size, are the box's centre and size |
| Annotations.YoloRoundTrip | tests/unit_tests/test_annotations.py:44-54 | box → YOLO → box is the identity for a well-ordered box with mutually inverse category tables |
| Annotations.YoloLineRoundTrip | tests/unit_tests/test_annotations.py:144-152 | YOLO → box → YOLO is the identity for a line with non-negative size |
| Annotations.YoloExamples | tests/unit_tests/test_annotations.py:44-66 | the YOLO test cases: box from_yolo and its unknown-id error (44-66), box to_yolo (144-152), keypoint from_yolo (185-196) and keypoint to_yolo (238-245) |
| Annotations.DictExamples | tests/unit_tests/test_annotations.py:18-28 | the dictionary test cases: box from_dict (18-28), box to_dict (131-141), keypoint from_dict (164-183) and keypoint to_dict (216-236) |
| Annotations.CategoryName | tests/unit_tests/test_annotations.py:68-92 | the name is found exactly when some category has the id, and belongs to that category |
| Annotations.FromCoco | tests/unit_tests/test_annotations.py:68-92 | the unknown-category error occurs exactly when no category has the id; with a known id, a non-negative width and height succeed, a negative width is `LeftGreaterThanRight` and otherwise a negative height is `TopGreaterThanBottom`; a built box starts at the COCO corner, has its width and height, is named by that category and carries the degenerate-box warnings |
| Annotations.CocoExamples | tests/unit_tests/test_annotations.py:68-92 | the two COCO test cases |
| Annotations.NewKeypoint | tests/unit_tests/test_annotations.py:158-162 | a keypoint is accepted exactly when its point lies inside its box |
| Annotations.KeypointOutsideRejected | tests/unit_tests/test_annotations.py:198-214 | a point left, right, above or below the box raises "not in the bounding box" |
| Annotations.KeypointToDict | tests/unit_tests/test_annotations.py:216-236 | the dictionary has exactly the keys keypoint and bounding_box; the point's x and y sit under "x" and "y", and the box's dictionary under bounding_box |
| Annotations.KeypointFromDict | tests/unit_tests/test_annotations.py:164-183 | succeeds exactly when both entries are dictionaries, `keypoint` holds numeric "x" and "y", `from_dict` of `bounding_box` succeeds and the point lies in that box; a missing `keypoint` and a failing box are reported as such; on success the point is read from "x" and "y" and the box is `from_dict` of `bounding_box` |
| Annotations.KeypointDictRoundTrip | tests/unit_tests/test_annotations.py:164-183 | keypoint → dictionary → keypoint is the identity |
| Annotations.KeypointFromYolo | tests/unit_tests/test_annotations.py:185-196 | succeeds exactly when the line's box is read and the scaled point lies in it; a box error is passed on unchanged; on success the keypoint is the normalised point scaled by the image size, inside the box read from the same line |
| Annotations.KeypointToYolo | tests/unit_tests/test_annotations.py:238-245 | succeeds exactly when the category has an id; the line's point is the keypoint normalised by the image size |
| Annotations.KeypointYoloRoundTrip | tests/unit_tests/test_annotations.py:185-196 | keypoint → YOLO → keypoint is the identity for valid keypoints |
| Annotations.Category | src/ChartExtractor/extraction/extraction.py:703-707 | `annotation.category`: the category of the annotation's box, for a box and for a keypoint alike |
| Annotations.AnnotationCenter | src/ChartExtractor/extraction/extraction.py:699 | `annotation.center`: a point midway between the left and right sides and between the top and bottom of the annotation's box, inside the box when it is well ordered |
| BoxIou.ClipAtZero | src/ChartExtractor/object_detection_models/onnx_yolov11_detection.py:325-327 | `clip(a_min=0)` is non-negative, at least its argument, and the identity on non-negative values |
| BoxIou.IntersectionBounds | src/ChartExtractor/object_detection_models/onnx_yolov11_detection.py:317-327 | the intersection lies between 0 and each box's area |
| BoxIou.Union | src/ChartExtractor/object_detection_models/onnx_yolov11_detection.py:329-331 | the union is positive, at least each area and at least the intersection, so the division is defined |
| BoxIou.Iou | src/ChartExtractor/object_detection_models/onnx_yolov11_detection.py:317-331 | one entry of the matrix: the intersection divided by the union of two positive-area boxes; its range, symmetry and self-value are stated by `IouBounds`, `IouSymmetric` and `IouSelf` |
| BoxIou.IouBounds | src/ChartExtractor/object_detection_models/onnx_yolov11_detection.py:317-331 | every IoU lies in [0, 1] |
| BoxIou.IouSymmetric | src/ChartExtractor/object_detection_models/onnx_yolov11_detection.py:317-331 | IoU(a, b) == IoU(b, a) |
| BoxIou.IouSelf | src/ChartExtractor/object_detection_models/onnx_yolov11_detection.py:317-331 | a box's IoU with itself is 1 |
| BoxIou.IouDisjointZero | src/ChartExtractor/object_detection_models/onnx_yolov11_detection.py:322-328 | boxes separated along an axis have IoU 0 |
| BoxIou.BatchIou | src/ChartExtractor/object_detection_models/onnx_yolov11_detection.py:304-331 | the matrix has one row per box of the first list, one column per box of the second, and entry (i, j) is IoU(these[i], those[j]) |
| BoxIou.BatchIouSelf | src/ChartExtractor/object_detection_models/onnx_yolov11_detection.py:359 | a list against itself gives a symmetric matrix in [0, 1] with ones on the diagonal |
| BoxIou.ScalePreservesOrder | src/ChartExtractor/object_detection_models/onnx_yolov11_detection.py:393-401 | scaling by positive factors keeps a positive-area box positive |
| Suppression.ArgsortDescending | src/ChartExtractor/object_detection_models/onnx_yolov11_detection.py:354-355 | the order is a permutation of the row indices with non-increasing confidence |
| Suppression.SelfIous | src/ChartExtractor/object_detection_models/onnx_yolov11_detection.py:359-360 | `ious - eye`: square, symmetric, zero on the diagonal, IoU elsewhere |
| Suppression.Visit | src/ChartExtractor/object_detection_models/onnx_yolov11_detection.py:364-369 | one loop step only clears rows of the visited row's class whose IoU with it exceeds the threshold, and never sets a row |
| Suppression.KeepAfter | src/ChartExtractor/object_detection_models/onnx_yolov11_detection.py:362-369 | the mask after visiting the first rows is a mask over all rows |
| Suppression.KeepAfterGreedy | src/ChartExtractor/object_detection_models/onnx_yolov11_detection.py:362-369 | after the loop, row x survives exactly when no earlier surviving row of its class overlaps it beyond the threshold |
| Suppression.KeepAfterDropsVisited | src/ChartExtractor/object_detection_models/onnx_yolov11_detection.py:360-369 | with a negative threshold the zero diagonal suppresses every visited row |
| Suppression.SuppressOverlapping | src/ChartExtractor/object_detection_models/onnx_yolov11_detection.py:368-369 | the in-place update of the mask array equals `Visit` on the old mask |
| Suppression.Unsort | src/ChartExtractor/object_detection_models/onnx_yolov11_detection.py:371 | `keep[sort_index.argsort()]`: the caller's row `order[k]` gets the sorted row k's flag |
| Suppression.NonMaxSuppression | src/ChartExtractor/object_detection_models/onnx_yolov11_detection.py:352-371 | the mask has one flag per row; row `order[k]` keeps exactly the loop's flag for sorted row k; with a non-negative threshold this is the greedy rule on the caller's rows; with a negative one nothing survives |
| Suppression.SuppressSorted | src/ChartExtractor/object_detection_models/onnx_yolov11_detection.py:362-370 | the loop over the sorted rows leaves exactly the mask `KeepAfter` defines after visiting every row |
| Suppression.NegativeThresholdDropsAll | src/ChartExtractor/object_detection_models/onnx_yolov11_detection.py:362-370 | with a negative threshold each row's zero self-overlap exceeds it, so every flag ends false |
| Suppression.GreedyFromKeepAfter | src/ChartExtractor/object_detection_models/onnx_yolov11_detection.py:352-371 | the loop's mask, carried back to caller order, satisfies the greedy rule |
| Suppression.TopRowKept | src/ChartExtractor/object_detection_models/onnx_yolov11_detection.py:354-369 | the first row in the descending order survives and has the highest confidence |
| Suppression.SurvivorsDoNotOverlap | src/ChartExtractor/object_detection_models/onnx_yolov11_detection.py:364-369 | no two surviving rows of one class have IoU above the threshold |
| Suppression.SuppressedHasWitness | src/ChartExtractor/object_detection_models/onnx_yolov11_detection.py:364-369 | every suppressed row has a surviving row of its class that is at least as confident and overlaps it beyond the threshold |
| Suppression.LoneClassKept | src/ChartExtractor/object_detection_models/onnx_yolov11_detection.py:367-369 | the only row of its class is never suppressed |
| Suppression.GreedyMaskUnique | src/ChartExtractor/object_detection_models/onnx_yolov11_detection.py:352-371 | for a given order the greedy rule admits only one mask |
| Suppression.KeptIndices | src/ChartExtractor/object_detection_models/onnx_yolov11_detection.py:260 | only positions of true flags, strictly increasing |
| Suppression.KeptIndicesComplete | src/ChartExtractor/object_detection_models/onnx_yolov11_detection.py:260 | every true flag's position is listed, and an all-false mask lists nothing |
| Suppression.Select | src/ChartExtractor/object_detection_models/onnx_yolov11_detection.py:260 | `predictions[mask]` is exactly the rows at the positions `KeptIndices` lists, in index order: every kept row and no other |
| Suppression.SurvivorsSeparated | src/ChartExtractor/object_detection_models/onnx_yolov11_detection.py:260 | the selected rows are pairwise separated within each class |
| Suppression.SeparatedAllKept | src/ChartExtractor/object_detection_models/onnx_yolov11_detection.py:352-371 | rows that are already separated all survive |
| Suppression.Idempotent | src/ChartExtractor/object_detection_models/onnx_yolov11_detection.py:352-371 | suppressing the survivors again, in any descending order, keeps them all |
| Suppression.SelectionCovers | src/ChartExtractor/object_detection_models/onnx_yolov11_detection.py:260 | every row is selected or covered by a selected, at-least-as-confident, overlapping row of its class |
| Suppression.MostConfidentSelected | src/ChartExtractor/object_detection_models/onnx_yolov11_detection.py:260 | some selected row is at least as confident as every row |
| Suppression.KeepSurvivors | src/ChartExtractor/object_detection_models/onnx_yolov11_detection.py:260 | the survivors are a subsequence of the rows (in their order, no repeats), pairwise separated, cover every row, include a most confident one, and are empty for a negative threshold |
| YoloPostprocess.MaxScore | src/ChartExtractor/object_detection_models/onnx_yolov11_detection.py:243 | `np.max`: one of the scores and no smaller than any |
| YoloPostprocess.ArgMax | src/ChartExtractor/object_detection_models/onnx_yolov11_detection.py:251 | `np.argmax`: a position of the maximum with every earlier score strictly smaller |
| YoloPostprocess.ToRowMeaning | src/ChartExtractor/object_detection_models/onnx_yolov11_detection.py:251-259 | the corners are centred on the anchor with its width and height; confidence is the maximum score, class its first position |
| YoloPostprocess.ToRow | src/ChartExtractor/object_detection_models/onnx_yolov11_detection.py:251-259 | one anchor's row: corners from centre and size, the best score and its first class; what that means is stated by `ToRowMeaning` |
| YoloPostprocess.CandidatesExactly | src/ChartExtractor/object_detection_models/onnx_yolov11_detection.py:243-250 | a row is a candidate exactly when it is the row of an anchor that reaches the confidence threshold |
| YoloPostprocess.Candidates | src/ChartExtractor/object_detection_models/onnx_yolov11_detection.py:243-258 | `pred_results[:, mask]` as rows: no more candidates than anchors; `CandidatesInOrder` and `CandidatesExactly` state which rows, in what order |
| YoloPostprocess.CandidatesInOrder | src/ChartExtractor/object_detection_models/onnx_yolov11_detection.py:249-258 | the p-th candidate is the row of the p-th anchor whose best score reaches the threshold, in output order (`KeptIndices` lists exactly the true positions of the mask, increasing), so each passing anchor gives exactly one row |
| YoloPostprocess.PassMask | src/ChartExtractor/object_detection_models/onnx_yolov11_detection.py:243-244 | the mask is true exactly at the anchors whose best score reaches the threshold |
| YoloPostprocess.CandidatesEmpty | src/ChartExtractor/object_detection_models/onnx_yolov11_detection.py:243-247 | no candidates exactly when no anchor reaches the threshold |
| YoloPostprocess.PostprocessResults | src/ChartExtractor/object_detection_models/onnx_yolov11_detection.py:241-261 | the detections are a subsequence of the candidates, empty when nothing passes; with a non-negative IoU threshold they are separated, cover every candidate and include a most confident one; with a negative one they are empty |
| YoloPostprocess.ScaleDetectionsBack | src/ChartExtractor/object_detection_models/onnx_yolov11_detection.py:393-401 | every row of the array gets x corners times width ratio and y corners times height ratio, in place; nothing else changes |
| YoloPostprocess.ScaledRowKeeps | src/ChartExtractor/object_detection_models/onnx_yolov11_detection.py:396-401 | rescaling keeps confidence, class, and positive area |
| YoloPostprocess.ScaledRowInverse | src/ChartExtractor/object_detection_models/onnx_yolov11_detection.py:393-401 | rescaling by the reciprocal ratios restores the row |
| YoloPostprocess.RowsToDetections | src/ChartExtractor/object_detection_models/onnx_yolov11_detection.py:170-182 | the conversion succeeds exactly when every class index is known and every box well ordered; then each row becomes a box detection with its class name, corners and confidence; an unknown-class error names a row's missing class |
| YoloPostprocess.SurvivorsConvert | src/ChartExtractor/object_detection_models/onnx_yolov11_detection.py:170-182 | rows of positive area fail to convert only on an unknown class |
| Ordering.StrLeTotal | src/ChartExtractor/extraction/extraction.py:687-706 | Python's string order is total (with reflexivity, antisymmetry and transitivity in the neighbouring lemmas) |
| Ordering.SortByKey | src/ChartExtractor/extraction/extraction.py:687-706 | `sorted(key=...)` yields keys in order and the same multiset of keys |
| Ordering.SortByKeyPermutes | src/ChartExtractor/extraction/extraction.py:687-706 | `sorted` is a permutation of its input |
| Ordering.SortByKeyStable | src/ChartExtractor/extraction/extraction.py:687-706 | `sorted` is stable: restricted to any one key, the output lists the same elements in the same order as the input |
| Ordering.InsertByKeyRestricted | src/ChartExtractor/extraction/extraction.py:687-706 | inserting an element puts it ahead of the elements already there with its key and leaves every other key's elements unchanged |
| Ordering.FilterByKeyCounts | src/ChartExtractor/extraction/extraction.py:689-704 | the filter keeps each listed name's occurrences and drops every other key |
| Ordering.SortedUnique | src/ChartExtractor/extraction/extraction.py:687-706 | two sorted lists of the same strings are equal |
| Ordering.SelectionKeys | src/ChartExtractor/extraction/extraction.py:687-706 | with distinct names each occurring once, the selected keys are the names in sorted order |
| Extraction.CornersAlign | src/ChartExtractor/extraction/extraction.py:687-710 | with each corner name once on both sides, the source and destination corners are equally many and pair up category by category |
| Extraction.PointsCorrespond | src/ChartExtractor/extraction/extraction.py:687-710 | the i-th source point and the i-th destination point are the centres of a detection and a template box of the same category |
| Extraction.SourceCornersFromDetections | src/ChartExtractor/extraction/extraction.py:697-709 | the source corners are exactly the detections with a corner name: each corner is such a detection, and each such detection is a corner |
| Extraction.DestinationCornersFromTemplate | src/ChartExtractor/extraction/extraction.py:687-696 | the destination corners are exactly the template boxes with a corner name |
| Extraction.OtherDetectionsIgnored | src/ChartExtractor/extraction/extraction.py:697-709 | detections of other categories, before or after, do not change the source points |
| Extraction.IntraoperativeCornerOrder | src/ChartExtractor/extraction/extraction.py:713-737 | intraoperative pairs come in the order anesthesia_start, lateral, safety_checklist, units |
| Extraction.PreoperativeCornerOrder | src/ChartExtractor/extraction/extraction.py:740-764 | preoperative pairs come in the order disposition, patient_profile, signature, weight |
| Extraction.ChartsUseMatrixCorrespondences | src/ChartExtractor/extraction/extraction.py:767-868 | each chart warp receives the same destination and source points that `find_homography` receives for that side, with the 3300 × 2550 chart size |
| Extraction.SourcePoints | src/ChartExtractor/extraction/extraction.py:697-709 | `src_points`: the centres of the detections with a corner name, sorted by category; `SourceCornersFromDetections` and `PointsCorrespond` state what they are |
| Extraction.DestinationPoints | src/ChartExtractor/extraction/extraction.py:687-696 | `dest_points`: the centres of the template boxes with a corner name, sorted by category; `DestinationCornersFromTemplate` and `PointsCorrespond` state what they are |
| Extraction.CreateHomographyMatrix | src/ChartExtractor/extraction/extraction.py:668-710 | `find_homography` applied to the source points and the destination points, in that order |
| Extraction.CreateIntraoperativeHomographyMatrix | src/ChartExtractor/extraction/extraction.py:713-737 | the matrix for the intraoperative corner names |
| Extraction.CreatePreoperativeHomographyMatrix | src/ChartExtractor/extraction/extraction.py:740-764 | the matrix for the preoperative corner names |
| Extraction.HomographyIntraoperativeChart | src/ChartExtractor/extraction/extraction.py:767-816 | the photograph warped onto the 3300 × 2550 chart with the intraoperative corner correspondences, destination points first; `ChartsUseMatrixCorrespondences` relates it to the matrix |
| Extraction.HomographyPreoperativeChart | src/ChartExtractor/extraction/extraction.py:819-868 | the same with the preoperative corner names |
| Extraction.TruncateTowardZero | src/ChartExtractor/extraction/extraction.py:879-885 | `int()` rounds toward zero: within one of its argument, never farther from zero |
| Extraction.TileSizeBounds | src/ChartExtractor/extraction/extraction.py:871-886 | for a non-negative proportion the tile is non-negative, at most both scaled sides, and within one of the smaller |
| Extraction.ComputeTileSize | src/ChartExtractor/extraction/extraction.py:871-886 | `int(min(width * p, height * p))`, with `int()` truncating toward zero; its bounds are stated by `TileSizeBounds` and its monotonicity by `TileSizeMonotone` |
| Extraction.TileSizeMonotone | src/ChartExtractor/extraction/extraction.py:879-886 | a larger proportion never gives a smaller tile |
| Extraction.TileSizeExamples | src/ChartExtractor/extraction/extraction.py:879-886 | concrete tile sizes for the chart size and small images |
| Extraction.Corrected | src/ChartExtractor/extraction/extraction.py:391-398 | one model's detections keep their count and confidences; all are remapped with the box transform when the first is a box, with the keypoint transform otherwise |
| Extraction.CorrectDetections | src/ChartExtractor/extraction/extraction.py:387-398 | keys with no detections are dropped; every other key maps to its remapped detections |
| Extraction.IdentityCorrection | src/ChartExtractor/extraction/extraction.py:488-499 | with transforms that change nothing, a key's corrected detections are its detections |
| Extraction.DigitizeSheet | src/ChartExtractor/extraction/extraction.py:131-134 | the result holds every key of either side; the preoperative value wins on a shared key |
| Extraction.DisjointMergeCommutes | src/ChartExtractor/extraction/extraction.py:131-134 | when the sides share no key, the order of the two updates does not matter |

## Left out

- Loading the ONNX model and its metadata, running inference, letterboxing and resizing the input image, and drawing detections: these are I/O, third-party numerics or image manipulation.
- The configuration loading and the model singletons in `extraction.py`; the visualizer scripts.
- `find_homography`, `homography_transform`, `transform_box`, `transform_keypoint`, `label_studio_to_bboxes` and the `extract_*` readers are not part of this model. They are parameters, and nothing is assumed about them.
- The `detect` method is modelled only in its last step (`RowsToDetections`). The order in which it passes the photograph's two dimensions to `ScaleDetectionsBack` is not modelled; `ScaleDetectionsBack` takes the tile's width and height as given.
- Floating point: every number is a mathematical real. NaN, rounding and `float32` precision are out of scope.
- Suppression.NonMaxSuppression: requires boxes of positive area. A zero-area pair has union 0, and `batch_iou` then divides by zero.
- Suppression.ArgsortDescending: it is one descending order. NumPy's unstable argsort may order equal confidences differently, so NonMaxSuppression takes any descending order as a parameter.
- YoloPostprocess.PostprocessResults: requires positive width and height for the anchors that pass the threshold, for the same reason as above.
- YoloPostprocess.RowsToDetections: the class table is keyed by the class index. The source's `str(int(...))` key conversion is injective on indices and is not spelled out. The warnings that constructing a degenerate `BoundingBox` emits are dropped: each detection holds only the box.
- BoxIou: invariance of IoU under scaling both boxes by the same factors is not proved.
- Annotations: the YOLO string format (precision and parsing) is abstracted to numeric records. A COCO box is read as `[x, y, width, height]`. The implementation of the annotations module is not part of this model. The model is built from its tests; where the tests leave a choice open, the model makes one, and the lines below name each.
- Annotations.NewBoundingBox: a box with both left > right and top > bottom is reported as `LeftGreaterThanRight`. The tests check each inversion only on its own, so this order is a choice of the model.
- Annotations.FromDict: a string category and four numeric sides are required, and any other value kind is reported as `WrongValueKind`, checked in the order category, left, top, right, bottom. The only failing test has an extra key, so value kinds and this order are choices of the model.
- Annotations.KeypointFromDict: extra keys at either level are accepted, while `FromDict` rejects them for the box. The errors are checked in the order missing key, value kind, box, containment. Both are choices of the model.
- Annotations.FromYolo: the class id is checked before the box's sides, so an unknown id with a negative size reports the id. This order is a choice of the model.
- Annotations.KeypointFromYolo: it inherits the order of `FromYolo` and checks the point against the box only after the box has been read. The order is a choice of the model.
- Annotations.FromCoco: the category id is checked before the box's sides. This order is a choice of the model.
- Annotations.CategoryName: when several categories share an id, the first one in the list gives the name. The tests use distinct ids, so this is a choice of the model.
- Annotations.NewKeypoint: a point on the edge of the box is accepted (the extent is closed). The tests only place points strictly inside or strictly outside, so this is a choice of the model.
- Annotations.Category: a keypoint annotation takes the category of its box. This is a choice of the model.
- Annotations.AnnotationCenter: a keypoint annotation's centre is taken to be the centre of its box, not its own point. The annotations module is not part of this model and no test fixes this, so it is a choice.
- Annotations.ToYolo: requires a positive image width and height. With a zero size the source divides by zero and raises `ZeroDivisionError`; that error path is not modelled.
- Annotations.KeypointToYolo: requires a positive image width and height, for the same reason as `ToYolo`; it also divides the point by them.
- Annotations.BoxWarnings: the exact warning lists are a choice of the model. The tests only require that a matching warning appears, each on a box where one condition holds. The model emits only the "parameters equal" warning when all four sides are equal. Otherwise it warns for left == right and for top == bottom independently, and both when both hold. `ValidationExamples` pins these lists as the model's choice.
- Extraction.CorrectDetections: the homography is a parameter. The lookups of the `"landmarks"` key and of the other keys the extractors read afterwards, which can raise `KeyError`, are not modelled. Dictionary iteration order does not affect the resulting map.
- Extraction.PointsCorrespond: states the pairing only when every corner name occurs exactly once on both sides. With a missing or repeated landmark, the lists handed to `find_homography` are still computed, but they may be of different lengths.
