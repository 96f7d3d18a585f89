# Template matching: peak extraction over a correlation surface

This project models, in Dafny, the integer and combinatorial core of the two
template matchers of the `rust_test_case` repository. Correlating a template
image against a target image is done by OpenCV, and it produces a
*correlation surface*: one score per alignment of the template on the target.
The code modelled here turns that surface into a list of matches.

- `auto_gui.dfy`, module `AutoGui`, models `src/auto_gui.rs`. It covers the
  "template larger than screen" guard of `find_image_on_screen` and its greedy
  extraction loop. The loop takes the global maximum and stops when it is below
  the threshold. Otherwise it accepts the maximum unless it falls in the
  exclusion window of an accepted match, zero-fills a clamped rectangle around
  it in place, and repeats. The module also covers the result filter with its
  saturating collision test, `clamp_rect`, and the region constructor. The
  surface is an `array2<int>` that the loop overwrites.
- `matcher.dfy`, module `Matcher`, models `src/matcher.rs`. It covers the size
  bookkeeping of `ImageMatcher::new` and region cropping as sub-grid
  extraction. It covers the match filter and the list collision loop
  `ImageMatcher::need_filter`. It covers the raster scan of `start_matching`,
  which visits the surface in row-major order and collects every cell that
  reaches the threshold and is not in the window of an earlier match. The
  collected list is then sorted stably by descending precision.
- `wrappers.dfy`, module `Wrappers`, defines the `Option` and `Result` types
  both modules use. A `None` from a constructor or test stands for a panic.

Scores are integers, because only their order matters to the extraction.
Coordinates and sizes are `nat`. A surface is indexed `[row, column]`, that is
`[y, x]`.

Three main results are proved:

- **The greedy loop terminates for a positive threshold.** The set of cells
  that reach the threshold shrinks strictly with every round.
- **The greedy loop's outcome, exactly.** The peaks the loop visits form a
  *trace* of the original surface (`AutoGui.Scene.Trace`). Each peak is the
  first row-major maximum of the original scores once the rectangles of the
  earlier peaks are zero-filled, and each reaches the threshold. The trace is
  *finished*: nothing left reaches the threshold. The list is what the loop
  pushes from the trace (`AutoGui.AcceptAll`), and the surface is the
  original, zero-filled around every visited peak. A finished trace is unique
  (`AutoGui.TraceUnique`), so this pins down the list and the surface.
- **Consequences of the trace.** Every accepted match reaches the threshold,
  lies on the surface and reports the cell's original score. No accepted
  match lies in the window of an earlier one, and precisions never increase.
  The first match is the best score of the whole surface. The list is empty
  exactly when no score reaches the threshold. Every cell that reached the
  threshold was zero-filled around a visited peak.
- **The scan's outcome.** It is characterised cell by cell: a cell is
  collected exactly when its score reaches the threshold and no match
  collected before it covers it. This characterisation determines the list
  uniquely. After the sort, the list is a permutation of the collected one,
  its precisions never increase, and ties stay in scan order.

Behaviour of the code worth noting:

- `start_matching` reports the region's size when a region is given and the
  target's otherwise. It does not report the template's size.
  `find_image_on_screen` does report the template's size.
- The suppression rectangle is not centred on the peak. It starts `x_delta` and
  `y_delta` before the peak, cut off at 0, and spans the template plus both
  margins. So it reaches further right and down than left and up.
- Termination holds only for a positive threshold, or when no score reaches
  the threshold at all. With a threshold of 0 or below, once the loop of
  `find_image_on_screen` has visited a peak, the zeros it wrote reach the
  threshold in every later round, so it never stops (see
  `AutoGui.NonPositivePrecisionNeverFinishes`).

## Model

| member | source | states |
|---|---|---|
| AutoGui.Region | src/auto_gui.rs:23-27 | No region exactly when width or height is 0; a constructed region has the given fields and positive sizes |
| AutoGui.NeedFilter | src/auto_gui.rs:60-74 | True exactly when `abs(cx - left) <= x_delta` and `abs(cy - top) <= y_delta` (inclusive window, lower bounds saturating at 0) |
| AutoGui.NeedFilterSymmetric | src/auto_gui.rs:60-74 | Swapping the candidate and the accepted point does not change the answer |
| AutoGui.ClampRect | src/auto_gui.rs:117-123 | For a grid of at least 1 x 1, the clamped rectangle has `0 <= x <= cols-1`, `0 <= y <= rows-1`, `1 <= w <= cols-x`, `1 <= h <= rows-y`; a rectangle that already fits is returned unchanged |
| AutoGui.ClampRectIdempotent | src/auto_gui.rs:117-123 | Clamping a clamped rectangle returns it unchanged |
| AutoGui.ClampRectKeepsCell | src/auto_gui.rs:117-123 | A grid cell covered by the rectangle (an empty size counting as 1) is still covered after clamping |
| AutoGui.SuppressRect | src/auto_gui.rs:259-264 | The unclamped suppression rectangle has a non-negative origin, sizes within i32, and covers the peak |
| AutoGui.SuppressionArea | src/auto_gui.rs:259-265 | The clamped suppression rectangle lies inside the surface and contains the peak, so the peak is zeroed |
| AutoGui.MaxLoc | src/auto_gui.rs:213-225 | Returns the largest score of the surface and the first cell in row-major order holding it |
| AutoGui.ZeroFill | src/auto_gui.rs:266-273 | Cells of the surface inside the rectangle become 0; all other cells are unchanged |
| AutoGui.FindImageOnScreen | src/auto_gui.rs:187-280 | Reports the template's size. If the template exceeds the screen, returns an empty list and leaves the surface untouched. Otherwise the surface, list and visited peaks satisfy `Extracted` against the original surface, using the default filter (5, 5) when none is given |
| AutoGui.SuppressPeaks | src/auto_gui.rs:208-274 | The loop terminates (the set of cells reaching the threshold shrinks each round). The visited peaks are a finished trace of the original surface, the list is `AcceptAll` of them, and the surface is the original zero-filled around every peak |
| AutoGui.ExtractStep | src/auto_gui.rs:234-273 | One round that does not stop. The maximum becomes the next visited peak. It is pushed exactly when it collides with no accepted match. Exactly its clamped suppression rectangle is zeroed. The trace, list and surface invariant carry over, and the cells reaching the threshold strictly shrink |
| AutoGui.SuppressAround | src/auto_gui.rs:259-273 | The fill zeroes exactly the area and strictly shrinks the set of cells reaching a positive threshold |
| AutoGui.AcceptAllSubset | src/auto_gui.rs:238-248 | Every pushed result is a visited peak, and the first visited peak is always pushed |
| AutoGui.AcceptAllNoCollisions | src/auto_gui.rs:238-248 | No pushed result lies in the window of one pushed before it |
| AutoGui.AcceptAllCovers | src/auto_gui.rs:238-248 | Every visited peak is pushed or lies in the window of a pushed result |
| AutoGui.AcceptKeepsOrder | src/auto_gui.rs:238-247 | Appending a non-colliding candidate that scores no higher than the last match keeps no-collisions and non-increasing precision |
| AutoGui.AcceptAllKeepsOrder | src/auto_gui.rs:238-248 | Pushing from non-increasing peaks gives a non-increasing list |
| AutoGui.CoveredExtends | src/auto_gui.rs:259-273 | After one more fill, a cell is covered exactly when it was covered before or lies in the new rectangle |
| AutoGui.CoveredPrefix | src/auto_gui.rs:212-274 | A cell zero-filled in an earlier round stays zero-filled in every later round |
| AutoGui.TraceExtends | src/auto_gui.rs:218-236 | A trace followed by the first maximum it leaves, when that reaches the threshold, is a trace |
| AutoGui.TracePeaksOriginal | src/auto_gui.rs:226-236 | With a positive threshold every visited peak was never zeroed. It reports the original score of its cell, and the peaks' scores never increase |
| AutoGui.TraceMatches | src/auto_gui.rs:212-274 | In any state of the loop, every accepted match reaches the threshold, lies on the surface and reports its original score. No two matches collide, precisions never increase, and every visited peak collides with the list |
| AutoGui.FinishedBest | src/auto_gui.rs:212-274 | When the loop stops, the list is empty exactly when no original score reaches the threshold. Otherwise the first match is the first visited peak, the best score of the original surface at the first cell holding it |
| AutoGui.FinishedCovers | src/auto_gui.rs:227-232 | When the loop stops, every original score reaching the threshold was zero-filled around some visited peak |
| AutoGui.NonPositivePrecisionNeverFinishes | src/auto_gui.rs:212-274 | With a threshold of 0 or below, no trace that has visited a peak is finished, however long it is, so the loop stops only if it stops before the first round |
| AutoGui.FirstMaxUnique | src/auto_gui.rs:218-236 | The first maximum a state of the loop leaves is unique |
| AutoGui.TracePrefixAgree | src/auto_gui.rs:212-274 | Two traces of the same search agree on their common prefix |
| AutoGui.PrefixUnfinished | src/auto_gui.rs:227-232 | A proper prefix of a trace is not finished: its next peak still reaches the threshold |
| AutoGui.TraceUnique | src/auto_gui.rs:212-274 | Two finished traces of the same search are equal, so the loop's list and final surface are determined by the original surface |
| Matcher.Region | src/matcher.rs:21-32 | No region exactly when width or height is 0; a constructed region has the given fields and positive sizes |
| Matcher.NeedFilterAsWritten | src/matcher.rs:86-104 | Panics exactly when `left < x_delta`, or when x is in the window and `top < y_delta`; otherwise agrees with `Matcher.NeedFilter` |
| Matcher.NeedFilter | src/matcher.rs:86-104 | The intended test: true exactly when `abs(x - left) <= x_delta` and `abs(y - top) <= y_delta` |
| Matcher.NeedFilterAsWrittenAgrees | src/matcher.rs:86-104 | Away from the left and top edges, the test as written never panics and agrees with the intended test |
| Matcher.NeedFilterAsWrittenUnderflows | src/matcher.rs:87-89 | With the default filter, a match at (0, 0) makes the test as written panic on cell (1, 0), which the intended test filters |
| Matcher.NeedFilterList | src/matcher.rs:200-213 | Returns true exactly when some match of the list has (x, y) in its window |
| Matcher.NeedFilterListAsWritten | src/matcher.rs:200-213 | With the test as written, panics exactly when the first match whose test does not answer `false` panics; answers `true` exactly when that match collides; answers `false` exactly when every test answers `false`; agrees with `Matcher.NeedFilterList` when every match lies at least the deltas away from the top and left edges |
| Matcher.New | src/matcher.rs:156-180 | Without a width, records the template's size; with width 0, divides by zero; with `width * height` past `u32::MAX`, overflows; otherwise records the requested width and the template's own height |
| Matcher.MulDivCancels | src/matcher.rs:165 | `w * h / w == h` for `w > 0` |
| Matcher.CropMat | src/matcher.rs:184-199 | No region returns the grid unchanged; a region fails exactly when it leaves the image; otherwise the crop is `height` rows of `width` cells with cell (i, j) equal to `g[top+i][left+j]`, so coordinates are relative to the crop origin |
| Matcher.CropOfCrop | src/matcher.rs:184-199 | Cropping a crop equals one crop at the sum of the origins |
| Matcher.CropWholeImage | src/matcher.rs:184-199 | Cropping the whole image returns it |
| Matcher.ScanSurface | src/matcher.rs:250-272 | The list satisfies `Collected`: its matches reach the threshold, lie on the surface with their scores and come in scan order; a cell is collected exactly when it reaches the threshold and no earlier match covers it |
| Matcher.VisitCollects | src/matcher.rs:252-270 | Collecting an uncovered cell that reaches the threshold extends the scan bookkeeping past that cell |
| Matcher.VisitSkips | src/matcher.rs:252-264 | Skipping a covered cell or one below the threshold extends the scan bookkeeping past that cell |
| Matcher.CollectedApart | src/matcher.rs:250-271 | In a collected list, no match lies in the window of a match collected before it |
| Matcher.CollectedUnique | src/matcher.rs:250-272 | Two lists satisfying `Collected` for the same surface, threshold and filter are equal |
| Matcher.ScanOrderUnique | src/matcher.rs:250-272 | Two lists in strict scan order with the same matches are equal |
| Matcher.Insert | src/matcher.rs:275-279 | Inserting keeps the multiset of matches (plus the new one) and keeps a non-increasing list non-increasing |
| Matcher.SortByPrecision | src/matcher.rs:275-279 | The result is a permutation of the input with non-increasing precision |
| Matcher.InsertKeepsTiesInOrder | src/matcher.rs:275-279 | Inserting a match that precedes all others in scan order keeps tied precisions in scan order |
| Matcher.SortKeepsTiesInScanOrder | src/matcher.rs:275-279 | The sort is stable: sorting a list in scan order keeps matches of equal precision in scan order |
| Matcher.SortKeepsMatches | src/matcher.rs:275-279 | A match is in the sorted list exactly when it is in the input |
| Matcher.StartMatching | src/matcher.rs:215-282 | Fails exactly when the region leaves the target; reports the region's size if given, otherwise the target's; the list is the sorted `Collected` list for the default filter (5, 5) when none is given |
| Matcher.StartMatchingList | src/matcher.rs:243-281 | The returned list has non-increasing precision, ties in scan order, every match on the surface with its own score at or above the threshold, and no match in the window of one earlier in scan order |

## Left out

- OpenCV and `image` crate calls are foreign code and are left out: decoding,
  resizing, grayscale conversion, histogram equalisation, blur, `match_template`,
  `normalize`, `imwrite`, drawing for annotation, and `get_mat_from_dyn_image`.
  The correlation surface and the image sizes are inputs to the model. The
  zero-fill by `imgproc::rectangle` is modelled as a plain array loop.
- `min_max_loc` is OpenCV's. `AutoGui.MaxLoc` fixes its tie-break as the first
  maximal cell in row-major order, and the minimum it also returns is not
  modelled.
- Floating point is left out. Scores are integers, so the `f32`/`f64` casts
  (`max_val as f32`, `precision as f64`) and NaN in `partial_cmp` are not
  modelled. The aspect-ratio `round()` in `resize_image` and in the template
  resize of `find_image_on_screen` is left out for the same reason.
- Asset loading (`Assets::get`), PNG encoding (`dynamic_image_to_png_bytes`),
  `decode_png_to_mat_color`, `src/assets.rs` and the driver `src/main.rs` are
  I/O and glue, and are left out.
- Debug output (`println!`, saved visualisations) has no effect on results and
  is left out.
- The trivial constructors and accessors `AutoGui::new`,
  `FindImageResultFilter::new`, `ImageMatchFilter::new`, `first()` and
  `_to_auto_gui_region` are plain datatype constructors or field reads, and are
  left out.
- The region crop of `find_image_on_screen` (src/auto_gui.rs:155-159) is
  left out, along with its `Mat::roi` failure. The screen size given to the
  model is the size after cropping. The matcher's crop is modelled by
  `Matcher.CropMat`.
- `at_2d` failures (src/matcher.rs:256-258) are left out. The modelled surface
  is total.
- `u32` overflow of `result.left + x_delta` and `result.top + y_delta`
  (src/auto_gui.rs:64,70 and src/matcher.rs:91,99) is left out. Coordinates are
  unbounded.
- AutoGui.FindImageOnScreen: requires a positive threshold, or that no score
  of the surface reaches the threshold. With a threshold of 0 or below the
  source loop does not terminate once some score reaches the threshold, as
  `AutoGui.NonPositivePrecisionNeverFinishes` shows, so the contract covers only
  calls that return. `AutoGui.SuppressPeaks` carries the same requirement.
- AutoGui.FindImageOnScreen: requires that the template plus both margins fits
  in `i32` (`SuppressionFits`). Beyond that, the source's `u32` sum overflows or
  its cast to `i32` wraps, and this is not modelled. `AutoGui.SuppressRect` and
  `AutoGui.SuppressionArea` carry the same requirement.
- AutoGui.FindImageOnScreen: requires the surface to have
  `(screen - template + 1)` rows and columns, the size `match_template`
  produces. That size is not derived here.
- Matcher.New: models the `u32` overflow of `w * h` as the panic of a debug
  build. The release-build wrap-around is not modelled.
- Matcher.New: the original template size is required to fit in `u32`.
- Matcher.New: the `Ok` outcome assumes `resize_mat` succeeds. With a width,
  it asks OpenCV for size (width, 0) with zero scale factors, and whether
  OpenCV accepts that is foreign behaviour. Its possible error is not modelled.
- Matcher.NeedFilterList: uses the corrected test `Matcher.NeedFilter` (see
  Findings). The source's list check panics in a debug build, or filters
  nothing in a release build, for a match nearer the left or top edge than the
  window. `Matcher.NeedFilterListAsWritten` models that check as written.
- Matcher.ScanSurface: uses the corrected test. The as-written scan would panic
  at the first cell whose list check as written panics, and it is not modelled.
- Matcher.StartMatching: builds on `Matcher.ScanSurface`, so it describes the
  corrected filter, not the panic of the code as written.
- Matcher.StartMatchingList: states its facts for the corrected filter, as
  `Matcher.StartMatching` does.
- Matcher.StartMatching: does not relate the surface's size to the target and
  template sizes, because `match_template` computes it. The error that
  `match_template` raises for a template larger than the target is left out
  for the same reason.
- Matcher.SortByPrecision: the standard library's in-place `sort_by` algorithm
  is not modelled. A functional stable insertion sort stands in for it. A
  stable sort by a total key has exactly one result, so the value is the same,
  but the in-place update is not captured.

## Findings

| source | as written | input that shows it | evidently intended | confidence | as-written member | corrected member |
|---|---|---|---|---|---|---|
| src/matcher.rs:87-97 | `result.left - self.x_delta` and `result.top - self.y_delta` are unchecked `u32` subtractions. A collected match closer to the left or top edge than the window panics in a debug build. In a release build the bound wraps to a huge value, so the match filters nothing. | default filter (5, 5), a match collected at (0, 0), then the scan reaches cell (1, 0) | The window is cut off at 0 with `saturating_sub`, as in `FindImageResultFilter::need_filter` (src/auto_gui.rs:61,67) | high; not executed | Matcher.NeedFilterAsWritten (shown by Matcher.NeedFilterAsWrittenUnderflows) | Matcher.NeedFilter |
