# YOLO post-processing of Deep Plant Phenomics, modelled in Dafny

Deep Plant Phenomics trains a YOLO-style object detector on plant images. The image is
cut into a `grid_w` by `grid_h` grid of cells. Each cell predicts one box per anchor
prior: five logits each (x, y, w, h and objectness), followed by class logits. This
project models the code around the network, not the network itself:

- **Label encoding** (`Encoder`). Each ground-truth box `[x_min, x_max, y_min, y_max]`
  becomes a flat per-image vector of `grid_w * grid_h` rows `[1, 1, x_off, y_off, w, h]`.
  A box lands in the cell holding its centre. The first box to claim a grid position
  wins; a later box whose wrapped cell index is the same overwrites the row.
- **Coordinate conversion** (`Decoder`). Grid-relative centre/size rows are turned back
  into pixel corner boxes. Prediction logits go through the sigmoid and through the
  exponential times the scaled anchor.
- **Filtering** (`Filter`). In each cell, the most confident anchor is responsible (the
  first one on ties). Detections at or below the significance threshold are dropped. A
  greedy non-maximal suppression then keeps the most confident box and every box whose
  IoU with it is below the overlap threshold, and repeats.
- **Mean average precision** (`Evaluator`). Each prediction is matched to the truth it
  overlaps most. It is a true positive when that IoU reaches the correctness threshold
  and the truth is not matched yet. Hits from all images are pooled and sorted by
  descending confidence. Precision is replaced by its running maximum from the right,
  and the area under the precision-recall curve is summed.
- **Interpreted outputs** (`Inference`). At inference time each cell reports the box of
  its most confident anchor when that confidence exceeds 0.6. The corners are truncated
  to integers. The boxes of all images are pooled and thinned by greedy suppression of
  every box whose IoU with a pick exceeds 0.3. Patched images shift each patch's boxes
  by the patch position.
- **Configuration** (`Settings`). This covers the model's image size, grid, class count,
  anchors and thresholds, and the setters that change them. Anchors are kept both raw
  (pixels) and scaled (grid units).

The shared pieces are:

- `Geometry`: boxes, intersection, union, IoU and truncation toward zero.
- `Seqs`: filtering, counting, `np.argmax`, `np.argsort` as any ascending index order,
  and a stable sort for Python's `sorted`.
- `Wrappers`: `Option` and `Result`.
- `Arith`: arithmetic helpers.

Floats are modelled as reals. The sigmoid and exponential are parameters, known only
through their ranges. The exceptions the post-processing raises on its inputs become a
`Failure`. This covers a missing image list, an empty first box list, and the
`IndexError` of a short output row or a missing anchor prior. Other inputs the source
accepts are kept out by typed parameters or by preconditions instead. Examples are
the setters' `TypeError`s, the division by a zero grid size, and `np.argmax` over a
NaN IoU in mAP. "## Left out" lists each one with the member that requires it. The
NaN that mAP produces when no truth exists is the `NotANumber` case.

## Model

| member | source | states |
|---|---|---|
| Geometry.Iou | deepplantphenomics/deepplantpheno.py:2285-2303 | For well-formed boxes and a non-zero union, the IoU lies in [0, 1]. |
| Geometry.UnionPositive | deepplantphenomics/deepplantpheno.py:2299-2303 | When either well-formed box has area, the union is positive, so the division is defined. |
| Geometry.IouSymmetric | deepplantphenomics/deepplantpheno.py:2285-2303 | IoU does not depend on the order of its two boxes. |
| Geometry.IouSelf | deepplantphenomics/deepplantpheno.py:2285-2303 | A box with area has IoU 1 with itself. |
| Geometry.IouDisjoint | deepplantphenomics/deepplantpheno.py:2293-2298 | Boxes separated along either axis have IoU 0. |
| Geometry.IntersectionWithin | deepplantphenomics/deepplantpheno.py:2293-2298 | The clipped intersection of two well-formed boxes is no larger than either box's area. |
| Geometry.Trunc | deepplantphenomics/deepplantpheno.py:2259-2260 | Python's `int()` on a float rounds toward zero: for a non-negative value the result is at most the value and within 1 below it; for a negative value it is at least the value and within 1 above it. |
| Geometry.TruncMonotone | deepplantphenomics/deepplantpheno.py:2259-2260 | Truncation toward zero never reverses the order of two values. |
| Settings.ScaleAnchors | deepplantphenomics/deepplantpheno.py:470-474 | Every scaled anchor, multiplied by the image pixels per grid cell, gives back the raw pixel anchor. |
| Settings.SetImageDimensions | deepplantphenomics/deepplantpheno.py:451-474 | Succeeds exactly when height, width and depth are all positive. The errors are checked in that order: height, then width, then depth. On success the image size is recorded. If raw anchors exist, each one is rescaled to grid units for the new size. Nothing else changes: grid, class count, box count, raw anchors and thresholds stay as they were. The configuration invariant (anchors match the raw anchors for the current grid and image) is kept. |
| Settings.SetYoloParameters | deepplantphenomics/deepplantpheno.py:538-585 | Succeeds exactly when an image size with non-zero width and height was chosen before. The grid becomes `grid_size`, or 7 by 7 when none is given. The raw anchors become the anchors given, or the five defaults. The box count is the number of raw anchors and the class count the number of labels given, or 1. The scaled anchors are the raw ones in grid units. The image size and the three thresholds stay as they were, and afterwards the configuration invariant holds. |
| Settings.SetYoloThresholds | deepplantphenomics/deepplantpheno.py:587-592 | Stores the three thresholds as given. Every other field stays as it was, so the configuration invariant is kept. |
| Seqs.ArgMax | deepplantphenomics/deepplantpheno.py:1588 | The index holds a maximum, and every earlier entry is strictly smaller, so it is the first maximum, as `np.argmax` picks. |
| Seqs.ArgsortAsc | deepplantphenomics/deepplantpheno.py:1602 | The result is a permutation of the indices whose values ascend, which is what `np.argsort` promises. |
| Seqs.SortByKey | deepplantphenomics/deepplantpheno.py:1675 | The result is sorted by the key and is a permutation (same multiset) of the input. It is stable, as Python's `sorted` is: for every key value, the elements with that key appear in the same order as in the input. So true and false positives of equal confidence keep their pooling order. |
| Seqs.InsertStable | deepplantphenomics/deepplantpheno.py:1675 | Inserting into a sorted sequence places the new element after every element with an equal key. The elements of each key keep their order, with the new one last. |
| Seqs.SortCount | deepplantphenomics/deepplantpheno.py:1675-1679 | Sorting keeps the number of elements satisfying any predicate, so the true-positive count survives the sort. |
| Seqs.Filter | deepplantphenomics/deepplantpheno.py:1610-1612 | An element is in the filtered sequence exactly when it is in the input and passes the test. |
| Decoder.DecodeLabelRow | deepplantphenomics/deepplantpheno.py:1534-1545 | The class prefix of a label row passes through unchanged. The last four values become the pixel corners of the centre/size box relative to the row's cell. |
| Decoder.DecodeLabels | deepplantphenomics/deepplantpheno.py:1534-1545 | The conversion keeps the number of rows. Row `i` is converted relative to cell `i`. |
| Decoder.DecodePredRow | deepplantphenomics/deepplantpheno.py:1547-1570 | One decoded candidate per anchor, with the class logits after the anchor blocks reattached unchanged. |
| Decoder.DecodePredictions | deepplantphenomics/deepplantpheno.py:1547-1570 | The conversion keeps the number of rows. Row `i` is decoded relative to cell `i`, with the same anchors for every cell. |
| Decoder.PredictionMeaning | deepplantphenomics/deepplantpheno.py:1517-1566 | A decoded candidate's centre is the sigmoid offset plus the cell's column and row, in pixels. Its size is exp of the logit times the anchor, in pixels, so with a positive anchor the box has area. Its confidence lies strictly between 0 and 1. |
| Decoder.DecodedBoxesHaveArea | deepplantphenomics/deepplantpheno.py:1547-1570 | With positive anchors, every candidate box of every cell has positive area. |
| Decoder.DecodedSizeUsesRawAnchor | deepplantphenomics/deepplantpheno.py:583-585 | In a consistent configuration the grid scaling of the anchors cancels against the pixels-per-cell scaling at 1520-1526. A decoded box is exp of the size logit times the raw pixel anchor wide and high. |
| Encoder.WriteCells | deepplantphenomics/deepplantpheno.py:3788-3842 | Writing the rows gives one six-value row for each of the `grid_w * grid_h` cells. A grid position ends up in the duplicate list exactly when some box maps to it. |
| Encoder.EncodeCells | deepplantphenomics/deepplantpheno.py:3786-3842 | An image's encoding has one six-value row per grid cell. A grid position is in the duplicate list exactly when it is some box's position. |
| Encoder.WriteCellsContents | deepplantphenomics/deepplantpheno.py:3788-3842 | A cell that no claiming box wraps to stays all zeros. The cell of the last claiming box to wrap to it holds that box's row. |
| Encoder.EncodeCellsContents | deepplantphenomics/deepplantpheno.py:3786-3842 | The same two facts, stated for an image's boxes: cells no box claims are zero, and each claimed cell holds the label row of its last writer. |
| Encoder.FlattenUpdate | deepplantphenomics/deepplantpheno.py:3842 | Assigning a row to the slice `[c*6 : (c+1)*6]` of the flat vector is the same as replacing cell `c` and flattening. |
| Encoder.SliceBound | deepplantphenomics/deepplantpheno.py:3730 | A Python slice bound is clamped into `[0, len]`. A bound within the array stays as it is, and a negative bound down to `-len` counts from the end. |
| Encoder.EncodeImage | deepplantphenomics/deepplantpheno.py:3786-3846 | Fails exactly when the image has a box and the class count is not 1: the six-value row then does not fit its slice. On success the vector has `grid_w * grid_h * (5 + classes)` values. |
| Encoder.ConvertLabels | deepplantphenomics/deepplantpheno.py:3776-3848 | Fails exactly when the class count is not 1 and some image has a box. Otherwise each image is encoded on its own, in order. |
| Encoder.CenterInGrid | deepplantphenomics/deepplantpheno.py:3801-3806 | A box centre inside the image gets a grid position inside the grid. |
| Encoder.LabelRowValues | deepplantphenomics/deepplantpheno.py:3799-3820 | For a centre inside the image, the row's offsets lie in [0, 1). Its width and height are the box size in grid units. |
| Encoder.CellOfPairInGrid | deepplantphenomics/deepplantpheno.py:3825 | A grid position inside the grid keeps its row-major index under the wrap. The decoder's column and row of that index give back the position. |
| Encoder.CellsDistinctInGrid | deepplantphenomics/deepplantpheno.py:3825 | Distinct grid positions inside the grid get distinct cells. |
| Encoder.LabelRoundTrip | deepplantphenomics/deepplantpheno.py:3799-3842 | Decoding a box's label row at its cell gives back `[1, 1, x_min, y_min, x_max, y_max]`: encoding followed by the conversion at 1534-1545 is the identity on the corners. |
| Encoder.LabelCorners | deepplantphenomics/deepplantpheno.py:3799-3820 | The row's offsets and sizes, converted at the box's cell, give back the box's corners. |
| Encoder.EncodeDecodeImage | deepplantphenomics/deepplantpheno.py:3786-3846 | In a fully encoded image, decoding the cell of any box that claimed its grid position gives back that box's corners. |
| Encoder.RightEdgeWraps | deepplantphenomics/deepplantpheno.py:3825-3827 | A centre exactly on the right edge of row `y` goes to the first cell of row `y + 1`. From the bottom row it wraps to cell 0, which, on a grid of more than one cell, is not the last cell. |
| Encoder.WrapOverwrites | deepplantphenomics/deepplantpheno.py:3809-3842 | A 2-by-2 grid where two boxes at different grid positions wrap to the same cell: the second box's row replaces the first's. |
| Encoder.EncodeSingleSucceeds | deepplantphenomics/deepplantpheno.py:3722-3731 | The single-box encoder succeeds exactly when there is one class and the unwrapped index `k` selects a full slice. That means `0 <= k < n`, or `-n <= k <= -2` through Python's negative slice bounds. |
| Encoder.EncodeSingle | deepplantphenomics/deepplantpheno.py:3722-3731 | On success the slice assignment keeps the vector's length: `grid_w * grid_h * (5 + classes)` values. |
| Encoder.EncodeSinglePlacement | deepplantphenomics/deepplantpheno.py:3695-3731 | On success the vector is all zeros except the row of cell `k mod n`, which holds the box's label row. |
| Filter.ResponsibleAnchor | deepplantphenomics/deepplantpheno.py:1588 | The responsible anchor has the highest confidence of the cell's anchors, and every earlier anchor is strictly less confident. |
| Filter.SelfNotSeparated | deepplantphenomics/deepplantpheno.py:1610 | At thresholds up to 1 a well-formed box never survives its own round. Without area its IoU is undefined; otherwise it is 1. |
| Filter.Survivors | deepplantphenomics/deepplantpheno.py:1610-1612 | An index stays in the order exactly when it was in the order and its box passes the separation test against the pick. |
| Filter.Sweep | deepplantphenomics/deepplantpheno.py:1606-1614 | The suppression loop ends and picks distinct indices from the order. The first pick is the last, most confident index. |
| Filter.SweepSeparated | deepplantphenomics/deepplantpheno.py:1606-1614 | Every later pick survived every earlier one: the separation test holds between every earlier and later pick. |
| Filter.SweepComplete | deepplantphenomics/deepplantpheno.py:1606-1614 | Every index of the order is either picked or removed by some pick. When the order ascends in confidence, the removing pick is at least as confident as the index it removes. |
| Filter.SweepDescending | deepplantphenomics/deepplantpheno.py:1602-1614 | Over an order ascending in confidence, the picks come out in non-increasing confidence. |
| Filter.Nms | deepplantphenomics/deepplantpheno.py:1599-1614 | At thresholds up to 1 the loop ends. Over a non-empty order it picks at least one index. The picks are distinct indices of the order. |
| Filter.NmsStallsAboveOne | deepplantphenomics/deepplantpheno.py:1606-1614 | With an overlap threshold above 1, a pick with area survives its own round, so the loop never shrinks its order. `set_yolo_thresholds` (587-592) does not prevent this. |
| Filter.SignificantCells | deepplantphenomics/deepplantpheno.py:1593 | A cell is significant exactly when its responsible confidence is strictly above the threshold. Each cell is listed once. |
| Filter.SigOrder | deepplantphenomics/deepplantpheno.py:1602 | An argsort of the significant detections' confidences: a permutation of their indices, ascending in confidence. |
| Filter.Kept | deepplantphenomics/deepplantpheno.py:1593-1619 | The kept detections are distinct, and each one is significant. |
| Filter.KeptNone | deepplantphenomics/deepplantpheno.py:1593-1595 | Nothing is kept exactly when no responsible detection is above the threshold. |
| Filter.FilterPredictions | deepplantphenomics/deepplantpheno.py:1574-1622 | The result is `None` exactly when no responsible confidence exceeds the significance threshold. Otherwise it is non-empty and every kept detection is significant. |
| Filter.FilterFromCells | deepplantphenomics/deepplantpheno.py:1587-1619 | Every kept detection is the responsible detection of some cell. |
| Filter.FilterKeepsArea | deepplantphenomics/deepplantpheno.py:1574-1622 | If every decoded box has area, so does every kept box. |
| Filter.FilterReportsKept | deepplantphenomics/deepplantpheno.py:1617-1622 | The reported detections are the responsible detections at the kept indices, in the order the suppression picked them. |
| Filter.FilterSeparated | deepplantphenomics/deepplantpheno.py:1606-1622 | Any two reported detections pass the separation test: the IoU of the later one with the earlier one is below the overlap threshold. |
| Filter.FilterDescending | deepplantphenomics/deepplantpheno.py:1602-1622 | Reported detections come in non-increasing confidence. The first one is at least as confident as every cell's responsible detection. |
| Filter.FilterComplete | deepplantphenomics/deepplantpheno.py:1593-1622 | Every significant responsible detection is either reported or fails the separation test against some reported detection that is at least as confident. |
| Filter.ReportedComplete | deepplantphenomics/deepplantpheno.py:1617-1622 | Completeness, together with the confidence ranking of the covering detection, carries over from the kept indices to the reported detections selected at those indices. |
| Filter.KeptSeparated | deepplantphenomics/deepplantpheno.py:1606-1619 | Any two kept detections have an IoU below the overlap threshold, computed against the earlier, more confident one. |
| Filter.KeptDescending | deepplantphenomics/deepplantpheno.py:1602-1619 | Kept detections come in non-increasing confidence. |
| Filter.KeptFirstIsMax | deepplantphenomics/deepplantpheno.py:1602-1609 | The first kept detection is the most confident detection of the image. |
| Filter.KeptComplete | deepplantphenomics/deepplantpheno.py:1593-1619 | Every significant detection that is not kept fails the separation test against some kept detection at least as confident: their IoU is at or above the threshold, or undefined. |
| Evaluator.Best | deepplantphenomics/deepplantpheno.py:1658 | The chosen truth has the highest IoU with the prediction. Every earlier truth has a strictly lower one, so it is the first maximum, as `np.argmax` picks. |
| Evaluator.Matched | deepplantphenomics/deepplantpheno.py:1657-1663 | The flags have one entry per truth. A truth is flagged only if some earlier prediction picked it as its best truth with an IoU at or above the correctness threshold. |
| Evaluator.Ious | deepplantphenomics/deepplantpheno.py:1654-1656 | Every IoU between a prediction with area and a well-formed truth has a positive union, so none is NaN. |
| Evaluator.MatchedMeans | deepplantphenomics/deepplantpheno.py:1659-1661 | After the first `i` predictions, a truth is marked exactly when some earlier prediction was a true positive whose best truth it is. |
| Evaluator.MatchCharacterised | deepplantphenomics/deepplantpheno.py:1657-1663 | A prediction is a true positive exactly when its IoU with its best truth reaches the threshold and no earlier true positive claimed that truth. |
| Evaluator.MatchedCount | deepplantphenomics/deepplantpheno.py:1657-1663 | The number of marked truths equals the number of true positives so far. |
| Evaluator.MatchTpBound | deepplantphenomics/deepplantpheno.py:1657-1663 | An image has no more true positives than truths. |
| Evaluator.BestTruthOnly | deepplantphenomics/deepplantpheno.py:1658-1659 | Two identical predictions over a perfect truth and a 0.75-IoU truth: the second prediction is false. Only the best truth is tried, even though the other one would have qualified. |
| Evaluator.ImageHits | deepplantphenomics/deepplantpheno.py:1636-1663 | An image without predictions adds no hits. An image without truths adds only false positives. Every hit carries its prediction's confidence, and true positives never outnumber truths. |
| Evaluator.Pool | deepplantphenomics/deepplantpheno.py:1636-1663 | With no predictions anywhere the pool is empty. True positives never outnumber all truths. |
| Evaluator.Precision | deepplantphenomics/deepplantpheno.py:1679-1680 | Every precision value lies in [0, 1]. |
| Evaluator.Envelope | deepplantphenomics/deepplantpheno.py:1684-1685 | Each entry is the maximum of the precision values from that position on. It bounds them all and equals one of them. |
| Evaluator.EnvelopeNonIncreasing | deepplantphenomics/deepplantpheno.py:1684-1685 | The envelope never increases. |
| Evaluator.RecallAscending | deepplantphenomics/deepplantpheno.py:1679-1681 | Recall never decreases along the sorted detections. |
| Evaluator.AreaSumBounds | deepplantphenomics/deepplantpheno.py:1686 | With precisions in [0, 1] and ascending recall, the summed area lies between 0 and the recall gained after the first detection. |
| Evaluator.AreaSumOnes | deepplantphenomics/deepplantpheno.py:1686 | With every precision 1, the summed area is exactly the recall gained after the first detection. |
| Evaluator.AveragePrecision | deepplantphenomics/deepplantpheno.py:1675-1688 | The score is NaN exactly when there are no truths and at least two detections: every recall is then 0 / 0, and the area sum contains such a difference. With no truths and a single detection the sum is empty and the score is 0. |
| Evaluator.AveragePrecisionBounds | deepplantphenomics/deepplantpheno.py:1675-1686 | With detections, truths and no more true positives than truths, the average precision is a number in [0, 1]. |
| Evaluator.AllCorrectCurve | deepplantphenomics/deepplantpheno.py:1679-1681 | When every detection is correct, precision is 1 throughout and recall after `k + 1` detections is `(k + 1) / truths`. |
| Evaluator.AllCorrectScore | deepplantphenomics/deepplantpheno.py:1679-1686 | When all `n` detections are correct, the score is `(n - 1) / truths`, not `n / truths`. The first detection's recall is never counted as area. |
| Evaluator.MeanAveragePrecision | deepplantphenomics/deepplantpheno.py:1665-1667 | With no predictions in any image, the mAP is 0. |
| Evaluator.MeanAveragePrecisionBounds | deepplantphenomics/deepplantpheno.py:1624-1688 | When some image has a truth, the mAP is a number in [0, 1]. |
| Evaluator.TruthTotalPositive | deepplantphenomics/deepplantpheno.py:1676-1677 | One image with a truth makes the truth total positive, so recall is defined. |
| Evaluator.TruthBoxes | deepplantphenomics/deepplantpheno.py:1491-1496 | The result is `None` exactly when no row has objectness 1. Otherwise it holds one box per marked row, in row order, so its length is the number of marked rows. |
| Evaluator.MarkedBoxes | deepplantphenomics/deepplantpheno.py:1494-1496 | The boolean mask keeps one box per row whose objectness is 1, so the count of kept boxes is the count of marked rows. That count is `n_truths` at 1676-1677. |
| Evaluator.MarkedBoxesAt | deepplantphenomics/deepplantpheno.py:1494-1496 | A marked row's box sits in the masked array at the position given by the number of marked rows before it. |
| Evaluator.MarkedBoxesFrom | deepplantphenomics/deepplantpheno.py:1494-1496 | Every box in the masked array comes from a marked row. |
| Evaluator.ImageTruthsValid | deepplantphenomics/deepplantpheno.py:1489-1496 | Converted truths are well formed. An image with a marked row has truths. |
| Evaluator.ImagePredictionsValid | deepplantphenomics/deepplantpheno.py:1489-1499 | With positive anchors, every filtered prediction has a box with area, so its IoU with any truth is defined. |
| Evaluator.EvaluateTest | deepplantphenomics/deepplantpheno.py:1485-1502 | When the decoded labels of the test set hold at least one truth box, the mAP is a number in [0, 1], never NaN. |
| Evaluator.EvaluateTestBounds | deepplantphenomics/deepplantpheno.py:1485-1502 | Over a test set where some label row marks an object, the logged mAP is a number in [0, 1]. |
| Inference.CellScored | deepplantphenomics/deepplantpheno.py:2231-2261 | Defined for cells whose winning block has an anchor prior. A cell yields nothing exactly when all five block confidences are at most 0.6. Otherwise it yields a confidence above 0.6 that is one of the five and the largest of them. |
| Inference.QuietCovered | deepplantphenomics/deepplantpheno.py:2239-2255 | A row where no block is more confident than 0.6 never reads `self.__ANCHORS`, so it cannot raise `IndexError`, whatever the anchor count. |
| Inference.CellBoxesEmpty | deepplantphenomics/deepplantpheno.py:2229-2261 | A row yields no box exactly when no block of any of its cells is more confident than 0.6. |
| Inference.CellScoredUsesDecoder | deepplantphenomics/deepplantpheno.py:2231-2261 | For an unpatched image, the loop's box is the truncated box of the responsible detection that the decoder (1547-1570) and the filter's anchor choice (1588) produce. |
| Inference.PatchShift | deepplantphenomics/deepplantpheno.py:2189-2197 | A box in patch `m` is the same box in the first patch, shifted by `m % across` patch widths and `m // across` patch heights. |
| Inference.CellBoxes | deepplantphenomics/deepplantpheno.py:2229-2262 | Every box of an image is confident and is the output of one of its cells. |
| Inference.CellBoxesComplete | deepplantphenomics/deepplantpheno.py:2229-2262 | Every cell that yields a box contributes it. |
| Inference.ImageBoxes | deepplantphenomics/deepplantpheno.py:2229-2261 | Every box an unpatched image yields is more confident than 0.6. The image yields no box exactly when no block of any cell exceeds 0.6. |
| Inference.PatchedImageBoxes | deepplantphenomics/deepplantpheno.py:2166-2200 | Every box a patched image yields, over all of its patches, is more confident than 0.6. It yields no box exactly when every patch is quiet. |
| Inference.ImageOutcome | deepplantphenomics/deepplantpheno.py:2229-2261 | An unpatched image raises `IndexError` exactly when its row is too short for the cell loop (the last cell's 26-value stride reaches past the end), or some cell's winning block is above 0.6 and has no anchor prior. It yields an empty list exactly when no block exceeds 0.6. Everything it yields is more confident than 0.6. |
| Inference.PatchedOutcome | deepplantphenomics/deepplantpheno.py:2166-2200 | The same for a patched image, given the one row per patch that the reshape at 2137-2138 makes: it fails exactly when some patch row is too short or has a winning block without an anchor prior. It yields nothing exactly when every patch row is long enough and quiet. |
| Inference.OverlapsSelf | deepplantphenomics/deepplantpheno.py:2270-2276 | A well-formed box suppresses itself exactly when it has area. Without area its self-IoU is NaN. |
| Inference.OverlapsSymmetric | deepplantphenomics/deepplantpheno.py:2270-2276 | Suppression does not depend on which box is the pick. |
| Inference.Overlaps | deepplantphenomics/deepplantpheno.py:2274-2275 | Two well-formed boxes with a zero union never suppress each other. Their intersection is then 0 too, so the IoU is NaN, and NaN is not greater than 0.3. |
| Inference.BoundaryIou | deepplantphenomics/deepplantpheno.py:2275 | Any two boxes with a non-zero union and IoU exactly 0.3 do not suppress each other, in either order, since the comparison is strict. |
| Inference.Greedy | deepplantphenomics/deepplantpheno.py:2264-2277 | The loop ends and picks distinct indices from the order, beginning with the last one. |
| Inference.GreedySeparated | deepplantphenomics/deepplantpheno.py:2264-2277 | No pick suppresses a later pick. |
| Inference.GreedyComplete | deepplantphenomics/deepplantpheno.py:2264-2277 | Every index is picked or suppressed by some pick. When the order ascends in confidence, the suppressing pick is at least as confident as the index it suppresses. |
| Inference.GreedyDescending | deepplantphenomics/deepplantpheno.py:2264-2277 | Over an order ascending in confidence, picks come out in non-increasing confidence. |
| Inference.Remaining | deepplantphenomics/deepplantpheno.py:2271-2277 | After a round, an index remains exactly when it was in the order, is not the pick, and is not suppressed by the pick. |
| Inference.InferNms | deepplantphenomics/deepplantpheno.py:2264-2277 | The loop's picks are distinct indices of the order. |
| Inference.Pooled | deepplantphenomics/deepplantpheno.py:2156-2264 | A box is pooled exactly when some image yields it. |
| Inference.PooledEmpty | deepplantphenomics/deepplantpheno.py:2202-2203 | The pool is empty exactly when every group is. |
| Inference.PooledOrder | deepplantphenomics/deepplantpheno.py:2264-2265 | An argsort of the pooled confidences: every pooled box's index appears once, in ascending confidence. |
| Inference.Suppress | deepplantphenomics/deepplantpheno.py:2263-2278 | Fails exactly when there is no image, and with `EmptyBoxList` exactly when the first image yields no box (the empty `all_boxes` cannot be indexed by column at 2265). It raises `IndexError` exactly when some image's loop raised (a short row or a missing anchor prior) and the first image does yield. Otherwise it returns the greedy thinning of the pooled boxes. That thinning is a suppression of the pool: it is drawn from the pool, led by its most confident box, in non-increasing confidence, and pairwise non-overlapping. Every box left out overlaps a kept box at least as confident. |
| Inference.Thinned | deepplantphenomics/deepplantpheno.py:2278 | The output is the pooled boxes at the picked indices, in pick order. It is never longer than the pool, and not empty when the pool is not. |
| Inference.ThinnedDescending | deepplantphenomics/deepplantpheno.py:2264-2278 | Output boxes come in non-increasing confidence. |
| Inference.ThinnedFirstIsMax | deepplantphenomics/deepplantpheno.py:2264-2270 | Over a non-empty pool, the first output box is a most confident pooled box. |
| Inference.LastIsMax | deepplantphenomics/deepplantpheno.py:2265-2269 | The last index of an ascending argsort of the pool names a most confident pooled box. |
| Inference.ThinnedSeparated | deepplantphenomics/deepplantpheno.py:2264-2278 | No output box overlaps a later one by more than 0.3. |
| Inference.ThinnedNoDuplicates | deepplantphenomics/deepplantpheno.py:2264-2278 | No box with area is output twice. |
| Inference.ThinnedComplete | deepplantphenomics/deepplantpheno.py:2264-2278 | Every pooled box that is not output overlaps, by more than 0.3, some output box that is at least as confident. |
| Inference.ThinnedSuppresses | deepplantphenomics/deepplantpheno.py:2264-2278 | The thinning meets every condition of a suppression of its pool at once: drawn from the pool, led by its most confident box, descending, pairwise non-overlapping, and every box it drops overlapped by a kept box at least as confident. |
| Inference.SuppressionUnique | deepplantphenomics/deepplantpheno.py:2264-2278 | When no two pooled boxes share a confidence, every suppression of the pool keeps exactly the boxes the greedy loop keeps. A box kept by one suppression only would be dropped by the other for a more confident box, and by induction on the boxes above it the first keeps that box too. The two kept boxes would then clash. |
| Inference.InterpretOutputs | deepplantphenomics/deepplantpheno.py:2222-2278 | Fails exactly when there is no image; with `EmptyBoxList` exactly when the first image's row is long enough and quiet; and with `IndexError` exactly when the first image is not that, and some image's row is too short or has a winning block without an anchor prior. On success every image yielded, every output box is more confident than 0.6, and the output is the greedy thinning of the pooled boxes. That thinning is a suppression of the pool: drawn from it, led by the most confident, descending, pairwise overlapping by at most 0.3. Every dropped box overlaps a kept box at least as confident by more than 0.3. With distinct confidences these conditions admit only the greedy result (`Inference.SuppressionUnique`). |
| Inference.InterpretPatchedOutputs | deepplantphenomics/deepplantpheno.py:2166-2217 | The same for patched images, with a patched image quiet when all of its patch rows are long enough and quiet, and raising when some patch row raises. Every output box is more confident than 0.6, and the output is the greedy thinning of all patches' pooled boxes, which is a suppression of them. |

## Left out

- Everything around the post-processing: TensorFlow graph construction, the YOLO loss,
  training, data loading, augmentation, logging and checkpoints. The mAP pass at
  1485-1502 is modelled from the arrays `all_y` and `all_predictions` onward.
- Floating point. Values are reals, so rounding and overflow are not modelled. NaN
  appears only in three places: `Evaluator.MeanAp.NotANumber` (mAP with no truths),
  the "never greater" reading of a NaN IoU in `Inference.Overlaps`, and the "never
  less" reading of a NaN IoU in `Filter.Separated`.
- `expit` and `np.exp` are parameters, constrained only by their ranges: the sigmoid in
  (0, 1) and the exponential positive.
- The type checks in the setters (`TypeError` for non-int dimensions, malformed grid,
  label or anchor lists). Typed parameters stand in for them.
- Seqs.ArgsortAsc: `np.argsort`'s quicksort does not fix an order among equal
  confidences. The suppression lemmas (`Filter.Sweep*`, `Inference.Greedy*`) hold for
  any ascending order. The pipelines fix the one this function returns, so on ties
  the model may keep a different box than NumPy does.
- Geometry.Iou: requires a non-zero union. The source divides anyway and gets NaN or
  infinity. The filter and the inference loop spell out what those values do in their
  comparisons (`Filter.Separated`, `Inference.Overlaps`).
- Filter.FilterPredictions: requires an overlap threshold of at most 1. Above 1 the
  source's loop never ends (`Filter.NmsStallsAboveOne`). It also requires well-formed
  boxes, which decoded boxes are whenever the anchors are positive.
- Filter.Nms: requires an overlap threshold of at most 1 and well-formed boxes, for the
  same reason.
- Evaluator.MeanAveragePrecision: requires every prediction box to have area and every
  truth box to be well formed. Otherwise the source's IoU can be NaN, and `np.argmax`
  over NaN is not modelled.
- Evaluator.EvaluateTest: label rows are assumed to have six values (one class), as
  the encoder writes them. With more classes the encoder itself fails
  (`Encoder.EncodeImage`).
- Settings.ValidGrid: the decoder, encoder, evaluator and inference members require a
  positive grid and image size. `set_yolo_parameters` stores any two-element integer
  grid (552-555), including zero and negative sizes, and `Settings.SetYoloParameters`
  does too. A zero grid width or height then raises `ZeroDivisionError` in the
  decoder (`image_width / grid_w` at 1520-1521). A negative one gives meaningless
  cell arithmetic. Neither case is modelled past the setter.
- Settings.ScaleAnchors: requires non-zero image width and height, since the source
  divides by them. Every caller has checked this already.
- Inference.CellScored: the stride of 26 values per cell and the 5 anchor blocks are
  hard-coded in the source at 2231-2236, and the model keeps them fixed.
- Inference.InterpretPatchedOutputs: the size scale of a patched box uses image pixels
  per grid cell (`image_width / grid_w`), not patch pixels per cell, as the source
  does at 2195-2196. The model keeps that behaviour.
- Inference.Suppress: the source runs suppression once per image over all boxes so far
  and keeps only the last pass's result. The model computes that final pass directly.
- The patching of images into tiles and the loading of model outputs (the session run
  at 2135-2165) are inputs. Patch rows arrive already split.
