/**
 * The template matcher of src/matcher.rs: the size bookkeeping of
 * `ImageMatcher::new`, region cropping, the collision test of a match filter,
 * and the raster scan plus the descending sort of `start_matching`.
 *
 * The correlation surface is an `array2<int>` indexed `[row, column]`, that
 * is `[y, x]`; it is only read. A cropped image is a grid `seq<seq<T>>` of
 * rows. Scores are integers, coordinates and sizes are `nat` (the source's
 * `u32`).
 */
module Matcher {
  import opened Wrappers

  const U32_MAX := 0xFFFF_FFFF

  function Abs(n: int): nat { if n < 0 then -n else n }

  /** How an operation of the matcher fails. */
  datatype Failure =
    | MultiplyOverflow  // a `u32` product past `u32::MAX`: a panic in a debug build
    | DivisionByZero    // an integer division by zero: a panic
    | RoiOutsideImage   // `Mat::roi` refuses a rectangle that leaves the image

  // ---------------------------------------------------------------------------
  // Regions, results and the match filter
  // ---------------------------------------------------------------------------

  /** A sub-rectangle of the target image to search in. */
  datatype ImageMatchRegion = ImageMatchRegion(left: nat, top: nat, width: nat, height: nat)

  /** `ImageMatchRegion::region`; a failed size assertion (a panic) is `None`. */
  function Region(left: nat, top: nat, width: nat, height: nat): (r: Option<ImageMatchRegion>)
    ensures r.None? <==> width == 0 || height == 0
    ensures r.Some? ==> r.value.width > 0 && r.value.height > 0
    ensures r.Some? ==> r.value == ImageMatchRegion(left, top, width, height)
  {
    if width == 0 then None
    else if height == 0 then None
    else Some(ImageMatchRegion(left, top, width, height))
  }

  /** A collected match: the surface cell and its score. */
  datatype ImageMatchResult = ImageMatchResult(left: nat, top: nat, precision: int)

  /** What a match returns: the size of the searched image and the matches. */
  datatype ImageMatchResults = ImageMatchResults(width: nat, height: nat, list: seq<ImageMatchResult>)

  /** The exclusion window: cells this close to a collected match are skipped. */
  datatype ImageMatchFilter = ImageMatchFilter(xDelta: nat, yDelta: nat)

  /** The filter used when the caller gives none. */
  const DEFAULT_FILTER := ImageMatchFilter(5, 5)

  function FilterOrDefault(filter: Option<ImageMatchFilter>): ImageMatchFilter
  {
    if filter.Some? then filter.value else DEFAULT_FILTER
  }

  /**
   * `ImageMatchFilter::need_filter` as written: the lower bounds
   * `result.left - x_delta` and `result.top - y_delta` are unchecked `u32`
   * subtractions, so a match closer to the surface's left or top edge than
   * the window makes the test panic (`None`) instead of answering.
   */
  function NeedFilterAsWritten(filter: ImageMatchFilter, result: ImageMatchResult, x: nat, y: nat): (r: Option<bool>)
    ensures r.None? <==>
              result.left < filter.xDelta ||
              (Abs(x - result.left) <= filter.xDelta && result.top < filter.yDelta)
    ensures r.Some? ==> r.value == NeedFilter(filter, result, x, y)
  {
    if result.left < filter.xDelta then None
    else if x < result.left - filter.xDelta then Some(false)
    else if x > result.left + filter.xDelta then Some(false)
    else if result.top < filter.yDelta then None
    else if y < result.top - filter.yDelta then Some(false)
    else if y > result.top + filter.yDelta then Some(false)
    else Some(true)
  }

  /**
   * The collision test as evidently intended: the cell (x, y) lies in the
   * inclusive window of half-widths (xDelta, yDelta) around `result`, the
   * window being cut off at the surface's edges (the lower bounds saturate
   * at 0, as in the screen matcher's filter).
   */
  function NeedFilter(filter: ImageMatchFilter, result: ImageMatchResult, x: nat, y: nat): (r: bool)
    ensures r <==> Abs(x - result.left) <= filter.xDelta && Abs(y - result.top) <= filter.yDelta
  {
    if x < SaturatingSub(result.left, filter.xDelta) then false
    else if x > result.left + filter.xDelta then false
    else if y < SaturatingSub(result.top, filter.yDelta) then false
    else if y > result.top + filter.yDelta then false
    else true
  }

  /** `u32::saturating_sub`. */
  function SaturatingSub(a: nat, b: nat): nat
  {
    if a >= b then a - b else 0
  }

  /** Away from the top and left edges the test as written answers, and agrees with the intended one. */
  lemma NeedFilterAsWrittenAgrees(filter: ImageMatchFilter, result: ImageMatchResult, x: nat, y: nat)
    requires result.left >= filter.xDelta && result.top >= filter.yDelta
    ensures NeedFilterAsWritten(filter, result, x, y) == Some(NeedFilter(filter, result, x, y))
  {
  }

  /**
   * With the default filter, a match at cell (0, 0) makes the test as
   * written panic on the very next cell of the scan, (1, 0), which the
   * intended test skips.
   */
  lemma NeedFilterAsWrittenUnderflows(precision: int)
    ensures NeedFilterAsWritten(DEFAULT_FILTER, ImageMatchResult(0, 0, precision), 1, 0).None?
    ensures NeedFilter(DEFAULT_FILTER, ImageMatchResult(0, 0, precision), 1, 0)
  {
  }

  /** Some match of `list` has (x, y) in its window. */
  predicate Collides(filter: ImageMatchFilter, list: seq<ImageMatchResult>, x: nat, y: nat)
  {
    exists k :: 0 <= k < |list| && NeedFilter(filter, list[k], x, y)
  }

  /** `ImageMatcher::need_filter`: a loop over `list` that returns at the first collision. */
  method NeedFilterList(x: nat, y: nat, list: seq<ImageMatchResult>, filter: ImageMatchFilter) returns (b: bool)
    ensures b <==> Collides(filter, list, x, y)
  {
    for k := 0 to |list|
      invariant forall l :: 0 <= l < k ==> !NeedFilter(filter, list[l], x, y)
    {
      if NeedFilter(filter, list[k], x, y) {
        return true;
      }
    }
    return false;
  }

  /**
   * `ImageMatcher::need_filter` over the test as written: the first match
   * whose test panics or answers `true` decides, `None` standing for the
   * panic. Against a list whose matches all lie at least the filter's deltas
   * away from the top and left edges it answers like `NeedFilterList`.
   */
  method NeedFilterListAsWritten(x: nat, y: nat, list: seq<ImageMatchResult>, filter: ImageMatchFilter)
    returns (r: Option<bool>)
    ensures r.None? <==>
              exists k :: 0 <= k < |list| && NeedFilterAsWritten(filter, list[k], x, y).None? &&
                forall l :: 0 <= l < k ==> NeedFilterAsWritten(filter, list[l], x, y) == Some(false)
    ensures r == Some(true) <==>
              exists k :: 0 <= k < |list| && NeedFilterAsWritten(filter, list[k], x, y) == Some(true) &&
                forall l :: 0 <= l < k ==> NeedFilterAsWritten(filter, list[l], x, y) == Some(false)
    ensures r == Some(false) <==> forall k :: 0 <= k < |list| ==> NeedFilterAsWritten(filter, list[k], x, y) == Some(false)
    ensures (forall k :: 0 <= k < |list| ==> list[k].left >= filter.xDelta && list[k].top >= filter.yDelta) ==>
              r == Some(Collides(filter, list, x, y))
  {
    for k := 0 to |list|
      invariant forall l :: 0 <= l < k ==> NeedFilterAsWritten(filter, list[l], x, y) == Some(false)
    {
      var v := NeedFilterAsWritten(filter, list[k], x, y);
      if v.None? {
        return None;
      }
      if v.value {
        return Some(true);
      }
    }
    return Some(false);
  }

  // ---------------------------------------------------------------------------
  // The matcher's size bookkeeping
  // ---------------------------------------------------------------------------

  /** An `ImageMatcher` without its template image: the gray flag and the recorded size. */
  datatype ImageMatcher = ImageMatcher(useGray: bool, width: nat, height: nat)

  /**
   * The size bookkeeping of `ImageMatcher::new` for a template of
   * `templateWidth` x `templateHeight`: with a requested width `w` the source
   * computes `h = w * h / w` in `u32`, which overflows when `w * h` passes
   * `u32::MAX` and divides by zero when `w == 0`, in that order.
   */
  function New(templateWidth: nat, templateHeight: nat, useGray: bool, width: Option<nat>): (r: Result<ImageMatcher, Failure>)
    requires templateWidth <= U32_MAX && templateHeight <= U32_MAX
    ensures width.None? ==> r == Ok(ImageMatcher(useGray, templateWidth, templateHeight))
    ensures width.Some? && width.value * templateHeight > U32_MAX ==> r == Err(MultiplyOverflow)
    ensures width == Some(0) ==> r == Err(DivisionByZero)
    ensures width.Some? && width.value > 0 && width.value * templateHeight <= U32_MAX ==>
              r == Ok(ImageMatcher(useGray, width.value, templateHeight))
  {
    if width.None? then
      Ok(ImageMatcher(useGray, templateWidth, templateHeight))
    else
      var w := width.value;
      if w * templateHeight > U32_MAX then Err(MultiplyOverflow)
      else if w == 0 then Err(DivisionByZero)
      else
        MulDivCancels(w, templateHeight);
        Ok(ImageMatcher(useGray, w, w * templateHeight / w))
  }

  /** `w * h / w == h` for `w > 0`: the recorded height is the template's, whatever width is requested. */
  lemma MulDivCancels(w: nat, h: nat)
    requires w > 0
    ensures w * h / w == h
  {
    var q, r := w * h / w, w * h % w;
    assert w * h == w * q + r;
    assert w * (h - q) == r;
    if h - q >= 1 {
      MulAtLeast(h - q, w);
    } else if q - h >= 1 {
      MulAtLeast(q - h, w);
    }
  }

  lemma {:induction false} MulAtLeast(a: nat, d: nat)
    requires a >= 1
    ensures d * a >= d
  {
    if a > 1 {
      MulAtLeast(a - 1, d);
      assert d * a == d * (a - 1) + d;
    }
  }

  // ---------------------------------------------------------------------------
  // Cropping
  // ---------------------------------------------------------------------------

  /** `g` is a grid of `rows` rows of `cols` cells each. */
  predicate IsGrid<T>(g: seq<seq<T>>, cols: nat, rows: nat)
  {
    |g| == rows && forall i :: 0 <= i < |g| ==> |g[i]| == cols
  }

  /** `Mat::roi` accepts the rectangle of `region` on an image of `cols` x `rows`. */
  predicate RegionInside(region: ImageMatchRegion, cols: nat, rows: nat)
  {
    region.left + region.width <= cols && region.top + region.height <= rows
  }

  /**
   * `crop_mat` as sub-grid extraction: no region leaves the image as it is;
   * a region inside the image yields the cells under it, so that cell
   * (i, j) of the crop is cell (top + i, left + j) of the image.
   */
  function CropMat<T>(g: seq<seq<T>>, cols: nat, region: Option<ImageMatchRegion>): (r: Result<seq<seq<T>>, Failure>)
    requires IsGrid(g, cols, |g|)
    ensures region.None? ==> r == Ok(g)
    ensures region.Some? ==> (r.Ok? <==> RegionInside(region.value, cols, |g|))
    ensures r.Err? ==> r.error == RoiOutsideImage
    ensures region.Some? && r.Ok? ==>
              var reg := region.value;
              IsGrid(r.value, reg.width, reg.height) &&
              forall i, j :: 0 <= i < reg.height && 0 <= j < reg.width ==>
                r.value[i][j] == g[reg.top + i][reg.left + j]
  {
    if region.None? then Ok(g)
    else
      var reg := region.value;
      if !RegionInside(reg, cols, |g|) then Err(RoiOutsideImage)
      else Ok(seq(reg.height, i requires 0 <= i < reg.height => g[reg.top + i][reg.left .. reg.left + reg.width]))
  }

  /** Cropping a crop is cropping once, at the sum of the two origins. */
  lemma CropOfCrop<T>(g: seq<seq<T>>, cols: nat, outer: ImageMatchRegion, inner: ImageMatchRegion)
    requires IsGrid(g, cols, |g|)
    requires RegionInside(outer, cols, |g|) && RegionInside(inner, outer.width, outer.height)
    ensures CropMat(g, cols, Some(outer)).Ok?
    ensures CropMat(CropMat(g, cols, Some(outer)).value, outer.width, Some(inner)) ==
            CropMat(g, cols, Some(ImageMatchRegion(outer.left + inner.left, outer.top + inner.top,
                                                   inner.width, inner.height)))
  {
    var once := CropMat(g, cols, Some(outer)).value;
    var twice := CropMat(once, outer.width, Some(inner)).value;
    var direct := CropMat(g, cols, Some(ImageMatchRegion(outer.left + inner.left, outer.top + inner.top,
                                                         inner.width, inner.height))).value;
    forall i | 0 <= i < inner.height ensures twice[i] == direct[i] {
      forall j | 0 <= j < inner.width ensures twice[i][j] == direct[i][j] {
        assert twice[i][j] == once[inner.top + i][inner.left + j];
      }
    }
    assert twice == direct;
  }

  /** Cropping the whole image gives the image back. */
  lemma CropWholeImage<T>(g: seq<seq<T>>, cols: nat)
    requires IsGrid(g, cols, |g|)
    ensures CropMat(g, cols, Some(ImageMatchRegion(0, 0, cols, |g|))) == Ok(g)
  {
    var c := CropMat(g, cols, Some(ImageMatchRegion(0, 0, cols, |g|))).value;
    forall i | 0 <= i < |g| ensures c[i] == g[i] {
      forall j | 0 <= j < cols ensures c[i][j] == g[i][j] {
      }
    }
    assert c == g;
  }

  // ---------------------------------------------------------------------------
  // The raster scan
  // ---------------------------------------------------------------------------

  /** Cell (x, y) comes before cell (cx, cy) in row-major order. */
  predicate CellBefore(x: nat, y: nat, cx: nat, cy: nat)
  {
    y < cy || (y == cy && x < cx)
  }

  /** The match `m` was collected before the scan reached cell (x, y). */
  predicate Before(m: ImageMatchResult, x: nat, y: nat)
  {
    CellBefore(m.left, m.top, x, y)
  }

  /** Some match of `list` lies at cell (x, y). */
  predicate Pushed(list: seq<ImageMatchResult>, x: nat, y: nat)
  {
    exists k :: 0 <= k < |list| && list[k].left == x && list[k].top == y
  }

  /** A match of `list` collected before cell (x, y) has it in its window. */
  predicate FilteredBefore(filter: ImageMatchFilter, list: seq<ImageMatchResult>, x: nat, y: nat)
  {
    exists k :: 0 <= k < |list| && Before(list[k], x, y) && NeedFilter(filter, list[k], x, y)
  }

  /** The matches of `list` lie at strictly increasing cells in row-major order. */
  predicate InScanOrder(list: seq<ImageMatchResult>)
  {
    forall k, l :: 0 <= k < l < |list| ==> Before(list[k], list[l].left, list[l].top)
  }

  /** Every match of `list` reaches the threshold, lies on the surface and carries that cell's score. */
  ghost predicate MatchesOf(surface: array2<int>, precision: int, list: seq<ImageMatchResult>)
    reads surface
  {
    forall m :: m in list ==>
      m.precision >= precision && m.top < surface.Length0 && m.left < surface.Length1 &&
      m.precision == surface[m.top, m.left]
  }

  /**
   * `list` is what the scan of `start_matching` collects: its matches, in
   * scan order; and a cell is collected exactly when its score reaches the
   * threshold and no match collected before it has it in its window.
   */
  ghost predicate Collected(surface: array2<int>, precision: int, filter: ImageMatchFilter, list: seq<ImageMatchResult>)
    reads surface
  {
    MatchesOf(surface, precision, list) &&
    InScanOrder(list) &&
    forall y, x :: 0 <= y < surface.Length0 && 0 <= x < surface.Length1 ==>
      (Pushed(list, x, y) <==> surface[y, x] >= precision && !FilteredBefore(filter, list, x, y))
  }

  /** The scan's bookkeeping once every cell before (x, y) has been visited. */
  ghost predicate ScannedUpTo(surface: array2<int>, precision: int, filter: ImageMatchFilter,
                              list: seq<ImageMatchResult>, x: nat, y: nat)
    reads surface
  {
    MatchesOf(surface, precision, list) &&
    InScanOrder(list) &&
    (forall k :: 0 <= k < |list| ==> Before(list[k], x, y)) &&
    forall cy, cx :: 0 <= cy < surface.Length0 && 0 <= cx < surface.Length1 && CellBefore(cx, cy, x, y) ==>
      (Pushed(list, cx, cy) <==> surface[cy, cx] >= precision && !FilteredBefore(filter, list, cx, cy))
  }

  /**
   * The nested `for y` / `for x` loops of `start_matching`: each cell not in
   * the window of a match collected so far is collected when its score
   * reaches the threshold.
   */
  method ScanSurface(surface: array2<int>, precision: int, filter: ImageMatchFilter)
    returns (list: seq<ImageMatchResult>)
    ensures Collected(surface, precision, filter, list)
  {
    var rows, cols := surface.Length0, surface.Length1;
    list := [];
    for y := 0 to rows
      invariant ScannedUpTo(surface, precision, filter, list, 0, y)
    {
      for x := 0 to cols
        invariant ScannedUpTo(surface, precision, filter, list, x, y)
      {
        var skip := NeedFilterList(x, y, list, filter);
        if !skip && surface[y, x] >= precision {
          ghost var before := list;
          list := list + [ImageMatchResult(x, y, surface[y, x])];
          VisitCollects(surface, precision, filter, before, x, y);
        } else {
          VisitSkips(surface, precision, filter, list, x, y);
        }
      }
      NextRow(surface, precision, filter, list, y);
    }
    ScanComplete(surface, precision, filter, list);
  }

  /** Collecting cell (x, y), which nothing collected covers, extends the bookkeeping past it. */
  lemma VisitCollects(surface: array2<int>, precision: int, filter: ImageMatchFilter,
                      list: seq<ImageMatchResult>, x: nat, y: nat)
    requires ScannedUpTo(surface, precision, filter, list, x, y)
    requires y < surface.Length0 && x < surface.Length1
    requires surface[y, x] >= precision && !Collides(filter, list, x, y)
    ensures ScannedUpTo(surface, precision, filter, list + [ImageMatchResult(x, y, surface[y, x])], x + 1, y)
  {
    var m := ImageMatchResult(x, y, surface[y, x]);
    var list' := list + [m];
    forall cy, cx | 0 <= cy < surface.Length0 && 0 <= cx < surface.Length1 && CellBefore(cx, cy, x + 1, y)
      ensures Pushed(list', cx, cy) <==> surface[cy, cx] >= precision && !FilteredBefore(filter, list', cx, cy)
    {
      if cx == x && cy == y {
        assert list'[|list|] == m;
      } else {
        PushedAppend(list, m, cx, cy);
        FilteredBeforeAppend(filter, list, m, cx, cy);
      }
    }
  }

  /** Skipping cell (x, y), covered or below the threshold, extends the bookkeeping past it. */
  lemma VisitSkips(surface: array2<int>, precision: int, filter: ImageMatchFilter,
                   list: seq<ImageMatchResult>, x: nat, y: nat)
    requires ScannedUpTo(surface, precision, filter, list, x, y)
    requires y < surface.Length0 && x < surface.Length1
    requires surface[y, x] < precision || Collides(filter, list, x, y)
    ensures ScannedUpTo(surface, precision, filter, list, x + 1, y)
  {
    if Collides(filter, list, x, y) {
      var k :| 0 <= k < |list| && NeedFilter(filter, list[k], x, y);
      assert Before(list[k], x, y);
    }
    forall k | 0 <= k < |list| ensures list[k].left != x || list[k].top != y {
      assert Before(list[k], x, y);
    }
  }

  /** Once a row is done, the bookkeeping is the one at the start of the next row. */
  lemma NextRow(surface: array2<int>, precision: int, filter: ImageMatchFilter,
                list: seq<ImageMatchResult>, y: nat)
    requires ScannedUpTo(surface, precision, filter, list, surface.Length1, y)
    ensures ScannedUpTo(surface, precision, filter, list, 0, y + 1)
  {
    forall k | 0 <= k < |list| ensures Before(list[k], 0, y + 1) {
      assert list[k] in list;
    }
  }

  /** Past the last row the bookkeeping is the whole scan's outcome. */
  lemma ScanComplete(surface: array2<int>, precision: int, filter: ImageMatchFilter, list: seq<ImageMatchResult>)
    requires ScannedUpTo(surface, precision, filter, list, 0, surface.Length0)
    ensures Collected(surface, precision, filter, list)
  {
  }

  lemma PushedAppend(list: seq<ImageMatchResult>, m: ImageMatchResult, x: nat, y: nat)
    requires m.left != x || m.top != y
    ensures Pushed(list + [m], x, y) <==> Pushed(list, x, y)
  {
    var list' := list + [m];
    if Pushed(list', x, y) {
      var k :| 0 <= k < |list'| && list'[k].left == x && list'[k].top == y;
      assert list'[k] == list[k];
    }
    if Pushed(list, x, y) {
      var k :| 0 <= k < |list| && list[k].left == x && list[k].top == y;
      assert list'[k] == list[k];
    }
  }

  lemma FilteredBeforeAppend(filter: ImageMatchFilter, list: seq<ImageMatchResult>, m: ImageMatchResult, x: nat, y: nat)
    requires !Before(m, x, y)
    ensures FilteredBefore(filter, list + [m], x, y) <==> FilteredBefore(filter, list, x, y)
  {
    var list' := list + [m];
    if FilteredBefore(filter, list', x, y) {
      var k :| 0 <= k < |list'| && Before(list'[k], x, y) && NeedFilter(filter, list'[k], x, y);
      assert list'[k] == list[k];
    }
    if FilteredBefore(filter, list, x, y) {
      var k :| 0 <= k < |list| && Before(list[k], x, y) && NeedFilter(filter, list[k], x, y);
      assert list'[k] == list[k];
    }
  }

  /** No collected match lies in the window of a match collected before it. */
  lemma {:induction false} CollectedApart(surface: array2<int>, precision: int, filter: ImageMatchFilter,
                                          list: seq<ImageMatchResult>)
    requires Collected(surface, precision, filter, list)
    ensures forall k, l :: 0 <= k < l < |list| ==> !NeedFilter(filter, list[k], list[l].left, list[l].top)
  {
    forall k, l | 0 <= k < l < |list|
      ensures !NeedFilter(filter, list[k], list[l].left, list[l].top)
    {
      var n := list[l];
      assert n in list;
      assert Pushed(list, n.left, n.top);
      assert !FilteredBefore(filter, list, n.left, n.top);
      assert Before(list[k], n.left, n.top);
    }
  }

  /**
   * The scan's outcome is determined by the surface: two lists that both
   * satisfy `Collected` are equal.
   */
  lemma CollectedUnique(surface: array2<int>, precision: int, filter: ImageMatchFilter,
                        a: seq<ImageMatchResult>, b: seq<ImageMatchResult>)
    requires Collected(surface, precision, filter, a) && Collected(surface, precision, filter, b)
    ensures a == b
  {
    AgreeBefore(surface, precision, filter, a, b, 0, surface.Length0);
    forall m | m in a ensures m in b {
      SameCellSameMatch(surface, precision, filter, a, b, m);
    }
    forall m | m in b ensures m in a {
      SameCellSameMatch(surface, precision, filter, b, a, m);
    }
    ScanOrderUnique(a, b);
  }

  /** Two collected lists push the same cells before (x, y), by induction over the cells in scan order. */
  lemma AgreeBefore(surface: array2<int>, precision: int, filter: ImageMatchFilter,
                    a: seq<ImageMatchResult>, b: seq<ImageMatchResult>, x: nat, y: nat)
    requires Collected(surface, precision, filter, a) && Collected(surface, precision, filter, b)
    requires x <= surface.Length1 && y <= surface.Length0
    ensures forall cy, cx :: 0 <= cy < surface.Length0 && 0 <= cx < surface.Length1 && CellBefore(cx, cy, x, y) ==>
              (Pushed(a, cx, cy) <==> Pushed(b, cx, cy))
    decreases y, x
  {
    if x > 0 {
      AgreeBefore(surface, precision, filter, a, b, x - 1, y);
      if y < surface.Length0 {
        FilteredBeforeAgrees(surface, precision, filter, a, b, x - 1, y);
        FilteredBeforeAgrees(surface, precision, filter, b, a, x - 1, y);
      }
    } else if y > 0 {
      AgreeBefore(surface, precision, filter, a, b, surface.Length1, y - 1);
    }
  }

  /** Where two collected lists agree on the cells before (x, y), a match of `a` filtering (x, y) is one of `b`. */
  lemma FilteredBeforeAgrees(surface: array2<int>, precision: int, filter: ImageMatchFilter,
                             a: seq<ImageMatchResult>, b: seq<ImageMatchResult>, x: nat, y: nat)
    requires Collected(surface, precision, filter, a) && Collected(surface, precision, filter, b)
    requires forall cy, cx :: 0 <= cy < surface.Length0 && 0 <= cx < surface.Length1 && CellBefore(cx, cy, x, y) ==>
               (Pushed(a, cx, cy) <==> Pushed(b, cx, cy))
    ensures FilteredBefore(filter, a, x, y) ==> FilteredBefore(filter, b, x, y)
  {
    if FilteredBefore(filter, a, x, y) {
      var k :| 0 <= k < |a| && Before(a[k], x, y) && NeedFilter(filter, a[k], x, y);
      assert a[k] in a;
      assert Pushed(a, a[k].left, a[k].top);
      var l :| 0 <= l < |b| && b[l].left == a[k].left && b[l].top == a[k].top;
      assert b[l] in b;
      assert b[l] == a[k];
    }
  }

  /** A match of one collected list is a match of any other. */
  lemma SameCellSameMatch(surface: array2<int>, precision: int, filter: ImageMatchFilter,
                          a: seq<ImageMatchResult>, b: seq<ImageMatchResult>, m: ImageMatchResult)
    requires Collected(surface, precision, filter, a) && Collected(surface, precision, filter, b)
    requires forall cy, cx :: 0 <= cy < surface.Length0 && 0 <= cx < surface.Length1 && CellBefore(cx, cy, 0, surface.Length0) ==>
               (Pushed(a, cx, cy) <==> Pushed(b, cx, cy))
    requires m in a
    ensures m in b
  {
    var k :| 0 <= k < |a| && a[k] == m;
    assert Pushed(a, m.left, m.top);
    assert CellBefore(m.left, m.top, 0, surface.Length0);
    var l :| 0 <= l < |b| && b[l].left == m.left && b[l].top == m.top;
    assert b[l] in b;
  }

  /** Two lists in strict scan order holding the same matches are equal. */
  lemma {:induction false} ScanOrderUnique(a: seq<ImageMatchResult>, b: seq<ImageMatchResult>)
    requires InScanOrder(a) && InScanOrder(b)
    requires forall m :: m in a <==> m in b
    ensures a == b
    decreases |a| + |b|, if a == [] then 1 else 0
  {
    if a != [] {
      assert a[0] in a;
      var k :| 0 <= k < |b| && b[k] == a[0];
      assert b[0] in b;
      var j :| 0 <= j < |a| && a[j] == b[0];
      // b[0] is a later match of a unless it is a[0], and a[0] cannot come before b[0]
      assert j > 0 ==> Before(a[0], b[0].left, b[0].top);
      assert b[0] == a[0];
      var a', b' := a[1..], b[1..];
      assert InScanOrder(a') by {
        forall p, q | 0 <= p < q < |a'| ensures Before(a'[p], a'[q].left, a'[q].top) {
          assert a'[p] == a[p + 1] && a'[q] == a[q + 1];
        }
      }
      assert InScanOrder(b') by {
        forall p, q | 0 <= p < q < |b'| ensures Before(b'[p], b'[q].left, b'[q].top) {
          assert b'[p] == b[p + 1] && b'[q] == b[q + 1];
        }
      }
      forall m ensures m in a' <==> m in b' {
        TailMembers(a, m);
        TailMembers(b, m);
      }
      ScanOrderUnique(a', b');
      assert a == [a[0]] + a' && b == [b[0]] + b';
    } else if b != [] {
      ScanOrderUnique(b, a);
    }
  }

  /** In a list in strict scan order, the matches after the first are the others. */
  lemma TailMembers(a: seq<ImageMatchResult>, m: ImageMatchResult)
    requires InScanOrder(a) && a != []
    ensures m in a[1..] <==> m in a && m != a[0]
  {
    if m in a[1..] {
      var p :| 0 <= p < |a[1..]| && a[1..][p] == m;
      assert a[p + 1] == m;
      assert Before(a[0], m.left, m.top);
    }
    if m in a && m != a[0] {
      var p :| 0 <= p < |a| && a[p] == m;
      assert a[1..][p - 1] == m;
    }
  }

  // ---------------------------------------------------------------------------
  // The descending sort
  // ---------------------------------------------------------------------------

  /** Precisions never increase along `list`. */
  predicate NonIncreasing(list: seq<ImageMatchResult>)
  {
    forall k, l :: 0 <= k < l < |list| ==> list[k].precision >= list[l].precision
  }

  /**
   * Inserts `m` into `sorted` before the first match scoring no higher, so
   * that `m` goes ahead of the matches it ties with.
   */
  function Insert(m: ImageMatchResult, sorted: seq<ImageMatchResult>): (r: seq<ImageMatchResult>)
    ensures multiset(r) == multiset(sorted) + multiset{m}
    ensures NonIncreasing(sorted) ==> NonIncreasing(r)
    ensures |r| == |sorted| + 1
    decreases |sorted|
  {
    if sorted == [] || sorted[0].precision <= m.precision then
      [m] + sorted
    else
      assert sorted == [sorted[0]] + sorted[1..];
      var rest := Insert(m, sorted[1..]);
      if NonIncreasing(sorted) then
        InsertBelowHead(m, sorted, rest);
        [sorted[0]] + rest
      else
        [sorted[0]] + rest
  }

  /** Behind a head scoring above `m`, the tail with `m` inserted stays in order. */
  lemma InsertBelowHead(m: ImageMatchResult, sorted: seq<ImageMatchResult>, rest: seq<ImageMatchResult>)
    requires sorted != [] && sorted[0].precision > m.precision && NonIncreasing(sorted)
    requires multiset(rest) == multiset(sorted[1..]) + multiset{m} && NonIncreasing(rest)
    ensures NonIncreasing([sorted[0]] + rest)
  {
    var r := [sorted[0]] + rest;
    forall k, l | 0 <= k < l < |r| ensures r[k].precision >= r[l].precision {
      if k == 0 {
        assert r[l] == rest[l - 1];
        assert r[l] in multiset(rest);
        if r[l] != m {
          assert r[l] in multiset(sorted[1..]);
          var t :| 0 <= t < |sorted[1..]| && sorted[1..][t] == r[l];
          assert sorted[t + 1] == r[l];
        }
      } else {
        assert r[k] == rest[k - 1] && r[l] == rest[l - 1];
      }
    }
  }

  /**
   * `results.sort_by(|a, b| b.precision.partial_cmp(&a.precision))`: a
   * stable sort by descending precision, written as an insertion sort.
   */
  function SortByPrecision(list: seq<ImageMatchResult>): (r: seq<ImageMatchResult>)
    ensures multiset(r) == multiset(list)
    ensures NonIncreasing(r)
    decreases |list|
  {
    if list == [] then []
    else
      assert list == [list[0]] + list[1..];
      Insert(list[0], SortByPrecision(list[1..]))
  }

  /** Matches of equal precision appear in scan order. */
  predicate TiesInScanOrder(list: seq<ImageMatchResult>)
  {
    forall i, j :: 0 <= i < j < |list| && list[i].precision == list[j].precision ==>
      Before(list[i], list[j].left, list[j].top)
  }

  /** Matches that `m` precedes in scan order keep coming after it when `m` is inserted, on a tie. */
  lemma {:induction false} InsertKeepsTiesInOrder(m: ImageMatchResult, sorted: seq<ImageMatchResult>)
    requires NonIncreasing(sorted)
    requires forall e :: e in sorted ==> Before(m, e.left, e.top)
    requires TiesInScanOrder(sorted)
    ensures TiesInScanOrder(Insert(m, sorted))
    decreases |sorted|
  {
    if sorted == [] || sorted[0].precision <= m.precision {
      FrontKeepsTies(m, sorted);
    } else {
      var tail := sorted[1..];
      forall e | e in tail ensures Before(m, e.left, e.top) {
        assert e in sorted;
      }
      InsertKeepsTiesInOrder(m, tail);
      BehindHeadKeepsTies(m, sorted, Insert(m, tail));
    }
  }

  lemma FrontKeepsTies(m: ImageMatchResult, sorted: seq<ImageMatchResult>)
    requires forall e :: e in sorted ==> Before(m, e.left, e.top)
    requires TiesInScanOrder(sorted)
    ensures TiesInScanOrder([m] + sorted)
  {
    var r := [m] + sorted;
    forall i, j | 0 <= i < j < |r| && r[i].precision == r[j].precision
      ensures Before(r[i], r[j].left, r[j].top)
    {
      if i == 0 {
        assert r[j] == sorted[j - 1];
        assert r[j] in sorted;
      } else {
        assert r[i] == sorted[i - 1] && r[j] == sorted[j - 1];
      }
    }
  }

  lemma BehindHeadKeepsTies(m: ImageMatchResult, sorted: seq<ImageMatchResult>, rest: seq<ImageMatchResult>)
    requires sorted != [] && sorted[0].precision > m.precision
    requires TiesInScanOrder(sorted)
    requires multiset(rest) == multiset(sorted[1..]) + multiset{m} && TiesInScanOrder(rest)
    ensures TiesInScanOrder([sorted[0]] + rest)
  {
    var r := [sorted[0]] + rest;
    forall i, j | 0 <= i < j < |r| && r[i].precision == r[j].precision
      ensures Before(r[i], r[j].left, r[j].top)
    {
      if i == 0 {
        assert r[j] == rest[j - 1];
        assert r[j] in multiset(rest);
        if r[j] != m {
          assert r[j] in multiset(sorted[1..]);
          var t :| 0 <= t < |sorted[1..]| && sorted[1..][t] == r[j];
          assert sorted[t + 1] == r[j];
        }
      } else {
        assert r[i] == rest[i - 1] && r[j] == rest[j - 1];
      }
    }
  }

  /**
   * The sort is stable: sorting a list in scan order leaves matches of equal
   * precision in scan order.
   */
  lemma {:induction false} SortKeepsTiesInScanOrder(list: seq<ImageMatchResult>)
    requires InScanOrder(list)
    ensures TiesInScanOrder(SortByPrecision(list))
    decreases |list|
  {
    if list != [] {
      var tail := list[1..];
      assert InScanOrder(tail) by {
        forall k, l | 0 <= k < l < |tail| ensures Before(tail[k], tail[l].left, tail[l].top) {
          assert tail[k] == list[k + 1] && tail[l] == list[l + 1];
        }
      }
      SortKeepsTiesInScanOrder(tail);
      var sorted := SortByPrecision(tail);
      forall e | e in sorted ensures Before(list[0], e.left, e.top) {
        assert e in multiset(tail);
        var t :| 0 <= t < |tail| && tail[t] == e;
        assert list[t + 1] == e;
      }
      InsertKeepsTiesInOrder(list[0], sorted);
    }
  }

  /** Sorting keeps the collected matches: the same matches, so the same cells and scores. */
  lemma SortKeepsMatches(list: seq<ImageMatchResult>, m: ImageMatchResult)
    ensures m in SortByPrecision(list) <==> m in list
  {
    var r := SortByPrecision(list);
    assert m in r <==> m in multiset(r);
    assert m in list <==> m in multiset(list);
  }

  // ---------------------------------------------------------------------------
  // start_matching
  // ---------------------------------------------------------------------------

  /**
   * `start_matching` after the correlation: `targetWidth` x `targetHeight` is
   * the target image, `surface` the correlation surface of the (cropped)
   * target with the template. The reported size is the region's when one is
   * given, otherwise the target's; the cropping fails when the region leaves
   * the target; the matches are the scan's outcome, sorted by descending
   * precision. The ghost `collected` is the list before the sort.
   */
  method StartMatching(targetWidth: nat, targetHeight: nat, surface: array2<int>, precision: int,
                       region: Option<ImageMatchRegion>, filter: Option<ImageMatchFilter>)
    returns (r: Result<ImageMatchResults, Failure>, ghost collected: seq<ImageMatchResult>)
    ensures r.Err? <==> region.Some? && !RegionInside(region.value, targetWidth, targetHeight)
    ensures r.Err? ==> r.error == RoiOutsideImage
    ensures r.Ok? ==> r.value.width == (if region.Some? then region.value.width else targetWidth)
    ensures r.Ok? ==> r.value.height == (if region.Some? then region.value.height else targetHeight)
    ensures r.Ok? ==> Collected(surface, precision, FilterOrDefault(filter), collected)
    ensures r.Ok? ==> r.value.list == SortByPrecision(collected)
  {
    var width, height := targetWidth, targetHeight;
    if region.Some? {
      width, height := region.value.width, region.value.height;
    }
    collected := [];
    if region.Some? && !RegionInside(region.value, targetWidth, targetHeight) {
      return Err(RoiOutsideImage), collected;
    }
    var results := ScanSurface(surface, precision, FilterOrDefault(filter));
    collected := results;
    results := SortByPrecision(results);
    r := Ok(ImageMatchResults(width, height, results));
  }

  /**
   * What a successful `start_matching` returns, stated on the list alone:
   * sorted by descending precision, ties in scan order, every match above the
   * threshold on the surface with its own score, and no match in the window
   * of another collected before it in scan order.
   */
  lemma StartMatchingList(surface: array2<int>, precision: int, filter: ImageMatchFilter,
                          collected: seq<ImageMatchResult>)
    requires Collected(surface, precision, filter, collected)
    ensures var list := SortByPrecision(collected);
            NonIncreasing(list) &&
            MatchesOf(surface, precision, list) &&
            TiesInScanOrder(list) &&
            (forall m, n :: m in list && n in list && Before(m, n.left, n.top) ==>
               !NeedFilter(filter, m, n.left, n.top))
  {
    var list := SortByPrecision(collected);
    SortKeepsTiesInScanOrder(collected);
    forall m | m in list
      ensures m.precision >= precision && m.top < surface.Length0 && m.left < surface.Length1 &&
              m.precision == surface[m.top, m.left]
    {
      SortKeepsMatches(collected, m);
    }
    CollectedApart(surface, precision, filter, collected);
    forall m, n | m in list && n in list && Before(m, n.left, n.top)
      ensures !NeedFilter(filter, m, n.left, n.top)
    {
      SortKeepsMatches(collected, m);
      SortKeepsMatches(collected, n);
      var k :| 0 <= k < |collected| && collected[k] == m;
      var l :| 0 <= l < |collected| && collected[l] == n;
      assert l < k ==> Before(n, m.left, m.top);
      assert k < l;
    }
  }
}
