# Edge cropper, modelled and proved in Dafny

This project models the core of `cutedge.py`: the `EdgeCropper` class,
which finds and removes the uniform border around an image.

- **Thresholds.** The constructor resolves three thresholds, the
  mode-exclude threshold and the low-effective-length thresholds by row
  and by column. Each is given either as a fraction of an image dimension
  or as an absolute pixel count. When no filters are given, defaults apply.
- **Background.** `GetLegalRegion` votes a background intensity. The vote
  is the mode of the modes of those rows whose mode occurs more often than
  the exclude threshold.
- **Scans.** It then scans the rows forwards and backwards, and then the
  columns, for the first line that is not a border line. A border line is
  one whose mode is the background and which is nearly all background. The
  result is the half-open box `[rowStart, rowEnd) x [columnStart, columnEnd)`.
- **Crop.** `Crop` slices the colour image to that box, with Python's
  clamping slice semantics. `call` stores the crop as the result.

Modules:

| module | content |
|---|---|
| `Wrappers` | `Option` and `Result` |
| `Grids` | rectangular grids and their columns (`im_gray[:, column]`) |
| `Modes` | a total mode function: the most frequent value, ties broken towards the smallest value |
| `Configuration` | threshold resolution |
| `BorderDetection` | the row-mode vote, the border test, the scans. `LegalRegion` is the reference definition of the detector; `CollectRowModes`, `ScanForward` and `ScanBackward` are the loops of the source, proved against it |
| `Cropping` | Python slicing and the two-dimensional crop |
| `CutEdge` | the `EdgeCropper` class: its fields, its constructor, `GetLegalRegion` (the imperative detector, proved equal to `LegalRegion`) and `Call` |
| `Scenarios` | synthetic framed and uniform images, and what the detector makes of them |

Errors are values. `Err(NoLegalRows)` and `Err(NoLegalColumns)` stand for
the two `ValueError`s. `Err(NoBackground)` stands for the failure when no
row takes part in the vote.

## Where the code differs from the behaviour one would expect

These lemmas state behaviour of the code as written. Each differs from
what a reader of the tool's purpose would expect.

- **Whether a frame is cropped is decided by the row vote.** The
  background is the most frequent of the row modes, so a frame is found
  only when the frame value wins that vote. For an image with a frame of
  thickness `t` around a block of another value (each lemma also states
  the threshold bounds it needs):
  - When frame rows outnumber interior rows (`rows < 4 t`), the interior
    is found exactly: `Scenarios.FrameDominatesGivesInterior`, and
    `Scenarios.DefaultThresholdsFindInterior` under the defaults.
  - When the frame outnumbers the content within each interior row
    (`columns < 4 t`), every row votes for the frame, and the interior is
    found however many interior rows there are:
    `Scenarios.NarrowFrameGivesInterior`. `Scenarios.NineByFiveFrameIsCropped`
    proves the concrete case of a 9 x 5 image with a 2-pixel frame, where
    the region is `(2, 7, 2, 3)` although five interior rows outnumber four
    frame rows.
  - When interior rows outnumber frame rows and the content outnumbers the
    frame within each interior row (`4 t < rows` and `4 t < columns`), the
    content becomes the background, the frame rows become content and the
    whole image is kept: `Scenarios.InteriorDominatesKeepsWholeImage`, and
    `Scenarios.DefaultThresholdsKeepWholeImage` under the defaults.
    `Scenarios.TenByTenFrameIsKept` proves a concrete case: a 10 x 10 image
    with a 2-pixel frame of 255 around a 6 x 6 block of 0, under the
    default thresholds. Six interior rows outvote four frame rows, so the
    region is the whole image `(0, 10, 0, 10)` and not `(2, 8, 2, 8)`.
  - When `rows == 4 t` and `columns >= 4 t`, or `columns == 4 t` and
    `rows >= 4 t`, either the row vote or each interior row's own mode is
    tied, so the smallest-value tie-break decides. No lemma states these
    cases.
- **Cropping is not idempotent.** The interior of a framed image is
  uniform (`Scenarios.CropToInteriorIsUniform`). On a uniform image,
  detection with the default thresholds of its own size fails on the rows
  (`Scenarios.UniformImageFailsOnRowsByDefault`). So detecting again on
  the crop does not give back the crop's full extent.
- **A uniform image fails on the rows, under the usual thresholds.** When
  the exclude threshold is below the width and the by-row threshold is
  positive (the defaults among them), every row of a uniform image is a
  border row (`Scenarios.UniformImageHasNoLegalRows`). The row error is
  then raised before the columns are examined, so no column error is
  reported. `BorderDetection.LegalRegionSpec` states that `NoLegalColumns`
  requires some non-border row. With a by-row threshold of 0 or less, a
  uniform image passes the row scan and fails on the columns instead
  (`Scenarios.UniformImageWithoutRowSlackHasNoLegalColumns`; the filters
  (0.1, 0, 0.05) in `Scenarios.UniformImageFailsOnColumnsWithZeroRowThreshold`).
- **Resolved thresholds are not bounded by the image dimension.** An
  absolute value above 1 is kept as given, whatever the dimension, and a
  negative fraction gives a negative threshold. Only a fraction in [0, 1]
  (`Configuration.Resolve`) and the defaults
  (`Configuration.ResolveThresholds`) are proved to resolve within the
  dimension.
- **No row in the vote.** When no row takes part, `stats.mode([])[0][0]`
  at cutedge.py:60 fails with an indexing error rather than a
  `ValueError`. The model reports this case as `Err(NoBackground)`.

## Model

| member | source | states |
|---|---|---|
| Modes.ModeAmong | cutedge.py:54 | the value picked from a non-empty candidate list is one of the candidates, and no candidate precedes it in (count, then value) order |
| Modes.Mode | cutedge.py:54 | the count is the number of occurrences of the value; no value occurs more often; on a non-empty line the value occurs in it, and it is the smallest of the values with maximal count |
| Modes.ModeCharacterized | cutedge.py:54 | a value that occurs maximally often and is the smallest such value is exactly the mode, with its count |
| Modes.ModeExactly | cutedge.py:54 | on a non-empty line, a value is the mode if and only if it occurs maximally often and is the smallest such value |
| Modes.ModeTieBreak | cutedge.py:54 | of two values tied at the maximal count, the mode is at most the smaller one |
| Modes.ModeOfDominant | cutedge.py:60 | a value occurring strictly more often than every other value is the mode |
| Configuration.Resolve | cutedge.py:25-36 | a fraction in [0, 1] resolves to a count within [0, dimension]; a value above 1 is kept unchanged |
| Configuration.ResolveThresholds | cutedge.py:16-36 | without filters, the thresholds are 0.1 x columns, 0.05 x columns and 0.05 x rows, which lie within the dimensions; with filters, a fraction (at most 1) is multiplied by columns for the mode-exclude and by-row thresholds and by rows for the by-column threshold, and a value above 1 is kept as given |
| Configuration.ResolveFraction | cutedge.py:25-26 | a resolved fraction divided by its dimension gives the fraction back |
| Configuration.DefaultsAreFractions | cutedge.py:16-21 | the defaults equal the filters (0.1, 0.05, 0.05) resolved against columns, columns and rows |
| Configuration.ScalingLaw | cutedge.py:29-32 | 0.2 against 100 columns resolves to 20; 20 resolves to 20 |
| Grids.Column | cutedge.py:93 | column j (`im_gray[:, column]`) has one cell per row, and its i-th cell is cell j of row i |
| Grids.Columns | cutedge.py:92-93 | the columns of a grid, left to right: as many as the grid has columns, the j-th being column j |
| BorderDetection.RepresentsExactly | cutedge.py:55 | a row takes part in the vote if and only if some intensity occurs in it more often than the exclude threshold |
| BorderDetection.RowModes | cutedge.py:49-58 | the row modes are at most as many as the rows |
| BorderDetection.RowModesMembers | cutedge.py:52-58 | a value is a row mode if and only if it is the mode of some row whose mode count exceeds the exclude threshold |
| BorderDetection.RowModesOfPrefix | cutedge.py:52-58 | one more row appends its mode exactly when its count exceeds the exclude threshold |
| BorderDetection.RowModesSnoc | cutedge.py:52-58 | appending a row appends its mode exactly when the row is representative |
| BorderDetection.RowModesAppend | cutedge.py:52-58 | the row modes of two stacked images are the concatenation of their row modes |
| BorderDetection.Background | cutedge.py:60 | no background exactly when no row is representative; otherwise the background is the mode of a representative row, occurs maximally often among the row modes, and is the smallest of the row modes occurring that often |
| BorderDetection.IsBorderExactly | cutedge.py:68 | a non-empty line is a border line if and only if the background is the smallest of its most frequent intensities and occurs more than `length - threshold` times; the same test is at cutedge.py:82, :95 and :109 |
| BorderDetection.FirstNonBorder | cutedge.py:64-72 | none exactly when every line is a border line; otherwise a non-border line with only border lines before it |
| BorderDetection.LastNonBorder | cutedge.py:77-86 | none exactly when every line is a border line; otherwise a non-border line with only border lines after it |
| BorderDetection.FirstNonBorderIs | cutedge.py:64-72 | a non-border line preceded only by border lines is the first non-border line |
| BorderDetection.LastNonBorderIs | cutedge.py:77-86 | a non-border line followed only by border lines is the last non-border line |
| BorderDetection.NonBorderSpan | cutedge.py:64-86 | none exactly when every line is a border line; otherwise a tight span: border lines before and after, non-border lines at both ends |
| BorderDetection.NonBorderSpanIs | cutedge.py:64-86 | a tight span is the span found, the converse of NonBorderSpan's contract |
| BorderDetection.NonBorderSpanOfScans | cutedge.py:64-86 | the first index found forwards and one past the index found backwards form the span |
| BorderDetection.LegalRegion | cutedge.py:48-115 | the reference detector: a region found lies within the image, with non-empty row and column ranges |
| BorderDetection.LegalRegionOfSpans | cutedge.py:48-115 | a background plus the row and column spans give the region with those bounds |
| BorderDetection.LegalRegionSpec | cutedge.py:48-115 | each error occurs exactly when its condition holds, checked in the source's order (background, then rows, then columns); a region's row and column bounds are tight spans under the voted background |
| BorderDetection.CollectRowModes | cutedge.py:49-58 | the loop collects exactly the row modes |
| BorderDetection.ScanForward | cutedge.py:65-72 | the forward scan returns the first non-border line, or none; the same loop serves columns at cutedge.py:92-99 |
| BorderDetection.ScanBackward | cutedge.py:78-86 | the backward scan returns one past the last non-border line, or none; the same loop serves columns at cutedge.py:105-113 |
| Cropping.Slice | cutedge.py:120 | Python's s[start:end] for non-negative bounds: each element is the element at the same offset from start; the length is clamped to the sequence; the slice is empty when the range is empty or starts past the end |
| Cropping.Crop | cutedge.py:117-121 | the crop has the rows of the row slice, each row is the column slice of the corresponding image row, and every cell is the image cell at the same offset from the box's corner |
| Cropping.CropWithinImage | cutedge.py:120 | a box inside a grid crops to a grid of the box's size |
| Cropping.CropWholeImage | cutedge.py:120 | the box of the whole image crops to the image itself |
| CutEdge.EdgeCropper.constructor | cutedge.py:8-36 | the dimensions come from the colour image, the thresholds are the resolved ones, and there is no result yet |
| CutEdge.EdgeCropper.GetLegalRegion | cutedge.py:48-115 | the imperative detector (vote loop, four scans, early errors) returns exactly the reference region |
| CutEdge.EdgeCropper.Call | cutedge.py:39-42 | on success the result is the crop of the colour image to the region; on an error the result is unchanged |
| Scenarios.FramedRowsUnderFrame | cutedge.py:65-72 | under the frame as background, the border rows of a framed image are exactly its frame rows |
| Scenarios.FramedRowSpan | cutedge.py:64-86 | under the frame as background, the row span of a framed image is its interior rows |
| Scenarios.FramedColumnSpan | cutedge.py:91-113 | under the frame as background, the column span of a framed image is its interior columns |
| Scenarios.FramedBackgroundIsFrame | cutedge.py:49-60 | frame rows outnumbering interior rows vote the frame as background |
| Scenarios.NarrowFramedBackgroundIsFrame | cutedge.py:49-60 | when the frame outnumbers the content within each interior row and every row votes, the frame is the background |
| Scenarios.FramedBackgroundIsContent | cutedge.py:49-60 | interior rows outnumbering frame rows, each dominated by the content, vote the content as background |
| Scenarios.FrameDominatesGivesInterior | cutedge.py:48-115 | with the frame voted as background and positive length thresholds no larger than the interior, the region is exactly the interior block |
| Scenarios.NarrowFrameGivesInterior | cutedge.py:48-115 | with the frame outnumbering the content within each interior row and positive length thresholds no larger than the interior, the region is exactly the interior block, whatever the number of rows |
| Scenarios.InteriorDominatesKeepsWholeImage | cutedge.py:48-115 | with the content voted as background, the region is the whole image |
| Scenarios.DefaultThresholdsFindInterior | cutedge.py:16-21 | under the default thresholds, a frame thicker than a quarter of the height, leaving at least a twentieth of each dimension, is found exactly |
| Scenarios.DefaultThresholdsKeepWholeImage | cutedge.py:16-21 | under the default thresholds, a frame thinner than a quarter of each dimension is kept, and the crop is the image itself |
| Scenarios.TenByTenFrameIsKept | cutedge.py:48-115 | the 10 x 10 image with a 2-pixel frame keeps its whole extent under the defaults |
| Scenarios.NineByFiveFrameIsCropped | cutedge.py:48-115 | the 9 x 5 image with a 2-pixel frame is cropped to its interior (2, 7, 2, 3) under the defaults, although its interior rows outnumber its frame rows |
| Scenarios.UniformImageHasNoLegalRows | cutedge.py:74-75 | with the exclude threshold below the width and a positive by-row threshold, a uniform image has only border rows: detection fails on the rows |
| Scenarios.UniformImageWithoutRowSlackHasNoLegalColumns | cutedge.py:64-102 | with the exclude threshold below the width, a by-row threshold of 0 or less and a positive by-column threshold, a uniform image passes the row scan and detection fails on the columns |
| Scenarios.UniformImageFailsOnColumnsWithZeroRowThreshold | cutedge.py:29-30 | under the filters (0.1, 0, 0.05), every uniform image fails on the columns |
| Scenarios.UniformImageFailsOnRowsByDefault | cutedge.py:74-75 | the same under the default thresholds, for every positive size |
| Scenarios.UniformImageHasNoBackground | cutedge.py:55-60 | a uniform image whose rows are too short to vote has no background |
| Scenarios.CropToInteriorIsUniform | cutedge.py:117-121 | cropping a framed image to its interior gives a uniform image of the interior's size |
| Scenarios.FramedColumns | cutedge.py:93 | the columns of a framed image form the framed image with rows and columns exchanged |
| Scenarios.InnerRunMode | cutedge.py:54 | the mode of a line with equal outer runs around an inner run is one of the two runs; it is the inner run when that run is longer than both outer runs together, and the outer value when the inner run is shorter |

## Left out

- Image loading (`cv2.imread`) is left out. The colour image and its
  grayscale projection are constructor parameters; the constructor
  requires both to be non-empty grids of the same size.
- Colour pixels are an opaque type parameter, so channels and bit depth
  are not modelled. Grayscale intensities are unbounded integers, not
  8-bit values.
- `Save`, `save_path`, `AddSavePath` and `Plot` are file and display
  output, and are left out. So is the `Save` step at the end of `call`.
- `CutEdge.EdgeCropper.Call` returns the region as well, so that its
  contract can state what was stored. The source's `call` returns nothing.
- `scipy.stats.mode` is replaced by `Modes.Mode`, which is total and
  breaks ties towards the smallest value. The library's own tie-break and
  its array-shaped results are not modelled.
- `Modes.Mode` gives an empty line the value 0 with count 0. No empty line
  reaches it from the class, because both dimensions are positive.
- Floating point is left out. Thresholds are exact reals, so a product
  such as `column_count * 0.1` has no rounding.
- `filters` is a three-field value. A sequence of another length, and
  non-numeric entries, are not modelled.
- `Cropping.Slice` covers non-negative bounds only. Negative Python
  indices never arise, because the detector produces only non-negative
  bounds.
- `Cropping.Crop` returns an independent grid, whereas the numpy slice
  at cutedge.py:120 is a view sharing memory with the colour image. This
  aliasing is not modelled; nothing in the class writes to either image.
- The two scans' `None` end values after a found start are unreachable,
  and the model does not represent them.
