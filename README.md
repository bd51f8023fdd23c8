# GreenEye: detection overlay and precision scoring, modelled in Dafny

GreenEye compares object-detection predictions with ground-truth annotations.
It loads the original photos and two directories of JSON annotation records
(ground truth and prediction). Every polygon of a record is drawn as a
rectangle outline on a copy of its photo: a blue pass for the ground truth,
then a yellow pass for the prediction on top of it. The original, the
ground-truth overlay and the combined overlay are placed side by side on one
wide canvas per sample. Separately, the precision TP / (TP + FP) is computed
over the predicted circles.

The model follows `GreenEye.py` component by component:

- `wrappers.dfy` — `Result` for the exceptions the script can raise, and `Min` for `zip`/`min`.
- `annotations.dfy` — an annotation record with exactly the two categories `circle` and `triangle`. A polygon is a list of integer pairs, and equality is structural.
- `names.dfy` — Python's ordering of strings, the order `list.sort()` gives a listing (`Sort`), and the marker test at index 36 (`Select`). It also holds `Marked`, a plain reference filter, and a worked example (module `NamesExample`).
- `images.dfy` — a PIL image as a class: where its raster came from, plus the ordered drawing and pasting commands applied to it. Copying makes a new object. Drawing appends to the image drawn on and to nothing else.
- `loader.dfy` — `load_images` and `load_polygons` as loops over the sorted listing.
- `overlay.dfy` — `add_polygons`.
- `composer.dfy` — `combine_images`.
- `scorer.dfy` — the counting loop, written as a method, and the division.

Behaviour of the code that the model keeps as written:

- Only `circle` polygons are scored. Triangles go into `ground_truth_amount`, which is never used.
- The marker position is the index 36, hard-coded in both loaders.
- A prediction list shorter than the ground truth raises IndexError when the loop reaches index `len(prediction)`.
- A short file name raises IndexError. It is not skipped.

## Model

| member | source | states |
|---|---|---|
| Names.LexLe | GreenEye.py:27 | Python's `<=` on strings, code point by code point; a name sorts no later than any name it is a prefix of |
| Names.LexLeTotal | GreenEye.py:27 | any two names are comparable under Python's string order |
| Names.LexLeTransitive | GreenEye.py:27 | Python's string order is transitive |
| Names.LexLeAntisymmetric | GreenEye.py:27 | two names that are each `<=` the other are equal |
| Names.LexLeReflexive | GreenEye.py:27 | every name is `<=` itself |
| Names.Insert | GreenEye.py:27 | inserting into a sorted listing keeps it sorted and adds exactly that name |
| Names.Sort | GreenEye.py:26-27 | the sorted listing is in Python's string order and is a permutation of the directory listing |
| Names.SortedUnique | GreenEye.py:40-41 | two sorted arrangements of the same names are equal, so image and annotation directories with the same names sort alike |
| Names.SortIsTheSortedPermutation | GreenEye.py:27 | `Sort` equals any sorted permutation of the listing, whatever algorithm the library uses |
| Names.Select | GreenEye.py:29-30 | the filter loop over a sorted listing: on success it keeps only listed names carrying `'.'` at index 36, never more names than listed; it raises IndexError at the first name too short to index |
| Names.SelectOkIff | GreenEye.py:29-30 | the filter loop finishes exactly when every name has more than 36 characters |
| Names.SelectFirstShort | GreenEye.py:43-44 | on failure there is a first name in sorted order of 36 characters or fewer: every earlier name is long enough, the loop succeeds on the names before it and fails once it is included |
| Names.SelectErrorSticks | GreenEye.py:29-30 | once a prefix of the listing raises, the whole loop raises the same error |
| Names.SelectIsMarked | GreenEye.py:28-34 | on success, the kept names are exactly the marked names in listing order |
| Names.MarkedMembers | GreenEye.py:43-47 | a name is kept iff it is in the listing and has `'.'` at index 36; a sorted listing gives a sorted result |
| Names.MarkedAppend | GreenEye.py:42-47 | filtering a concatenation concatenates the filtered parts |
| NamesExample.LexLeSharedStem | GreenEye.py:41 | a shared stem does not change the order of two names |
| NamesExample.CopyVariantDropped | GreenEye.py:41-44 | of `"a"*36 + ".json"` and `"a"*36 + "(1).json"`, only the first is kept |
| Loader.OpenLabelled | GreenEye.py:31-33 | a new image opened from `p + name` as RGBA, with the name written at (0, 0) |
| Loader.LoadImages | GreenEye.py:24-36 | fails iff the filter fails, with its error; otherwise gives one new image per kept name in sorted order, opened from `p + name` as RGBA with the name written at (0, 0) |
| Loader.LoadPolygons | GreenEye.py:39-48 | fails iff the filter fails, with its error; otherwise gives one parsed record per kept name, read from `path + "/" + name` in sorted order |
| Overlay.OutlinesAt | GreenEye.py:15-18 | one outline per polygon; the k-th outline uses the k-th polygon's corners and the given colour and width |
| Overlay.RecordOutlinesShape | GreenEye.py:13-18 | a record adds exactly `len(circle) + len(triangle)` rectangles, all circles first and then all triangles |
| Overlay.DrawOutlines | GreenEye.py:15-18 | drawing a list of polygons appends exactly their outlines, in order, to the image drawn on |
| Overlay.DrawRecord | GreenEye.py:11-19 | the copy is a new image: the original's content followed by the record's outlines |
| Overlay.AddPolygons | GreenEye.py:8-20 | `min(len(images), len(polygons))` new, distinct images; item i is `images[i]` plus the outlines of `polygons[i]`; the input images are unchanged |
| Composer.ComposeOne | GreenEye.py:56-66 | a new blank 2100x512 RGB canvas with the three images pasted at x = 0, 700 and 1400, y = 0 |
| Composer.CombineImages | GreenEye.py:51-69 | `min(len l1, len l2, len l3)` new, distinct composites; composite i is a blank 2100x512 RGB canvas with `l1[i]`, `l2[i]`, `l3[i]` pasted at (0,0), (700,0), (1400,0) |
| Scorer.Score | GreenEye.py:100-110 | the counters the loop leaves, or IndexError at index `len(prediction)` exactly when the predictions are fewer than the ground truth; TP + FP equals the predicted circles over the ground-truth indices |
| Scorer.CountPositives | GreenEye.py:100-110 | raises IndexError iff the predictions are fewer than the ground truth; otherwise the counters match `Score`, and TP + FP equals the number of predicted circles over the scored indices |
| Scorer.ScorePrecision | GreenEye.py:100-112 | IndexError exactly when the predictions are fewer than the ground truth; ZeroDivisionError exactly when otherwise no circle is predicted over the ground-truth indices; any value lies in [0, 1] |
| Scorer.Precision | GreenEye.py:112 | ZeroDivisionError iff TP + FP = 0; otherwise the value lies in [0, 1], equals 1 iff FP = 0, and equals 0 iff TP = 0 |
| Scorer.HitsPlusMisses | GreenEye.py:106-110 | every predicted circle is counted as exactly one of a true positive and a false positive |
| Scorer.NoMissesIff | GreenEye.py:107-110 | no false positive at an index iff every predicted circle there is among the ground-truth circles |
| Scorer.NoHitsIff | GreenEye.py:107-108 | no true positive at an index iff no predicted circle there is among the ground-truth circles |
| Scorer.PositivesCoverPredictions | GreenEye.py:104-110 | TP + FP over the first n indices equals the predicted circles over those indices |
| Scorer.TrianglesIgnored | GreenEye.py:105-110 | changing triangles, predicted or true, changes neither TP nor FP |
| Scorer.AmountIgnored | GreenEye.py:105-112 | `ground_truth_amount` plays no part in the precision |
| Scorer.SelfScoreCounts | GreenEye.py:106-110 | scoring the ground truth against itself gives FP = 0 and TP = all its circles |
| Scorer.SelfPrecision | GreenEye.py:104-112 | the ground truth scored against itself has precision 1 whenever it holds a circle |
| Scorer.DisjointScoresNothing | GreenEye.py:106-108 | predictions that share no circle with the ground truth give TP = 0 |
| Scorer.DisjointPrecision | GreenEye.py:104-112 | such predictions, when any circle is predicted, have precision 0 |
| Scorer.HalfPrecisionExample | GreenEye.py:100-112 | one matching box and one extra box give TP = 1, FP = 1 and precision 0.5 |
| Scorer.EmptyScoreDivides | GreenEye.py:112 | no circles anywhere gives ZeroDivisionError, not a value |

## Left out

- Pixels. PIL's decoding, RGBA/RGB conversion, drawing, pasting and encoding are library calls. An image is modelled as its origin plus the ordered list of commands applied to it, and image sizes are not checked.
- Errors PIL raises for a malformed polygon in `rectangle` (for example three corners, or a reversed box) are not modelled. Every polygon is recorded as drawn.
- `os.listdir`, file opening and `json.load` are I/O. The listing is a parameter, and so is a total function from a file path to its parsed record. A JSON parse failure is not modelled.
- A JSON record without a `circle` or `triangle` key (a KeyError in the source) cannot occur, because a record always has both fields.
- Coordinates are integers. JSON floats, and Python's `1 == 1.0` in list equality, are not modelled.
- Scorer.Precision: the result is an exact real ratio, not the rounded floating-point value of line 112.
- Printing the precision, and saving or showing the composites (lines 114-118), are output only.
- The top-level wiring of lines 72-90 (paths, two overlay passes, composing) is orchestration. Each stage it calls is modelled on its own.
