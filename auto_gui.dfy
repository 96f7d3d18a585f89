/**
 * The screen matcher of src/auto_gui.rs: the dimension guard, the greedy
 * peak extraction over the correlation surface and its helpers (the collision
 * test of a result filter and rectangle clamping).
 *
 * The correlation surface is an `array2<int>` indexed `[row, column]`, that
 * is `[y, x]`; its `Length0` is the number of rows and `Length1` the number
 * of columns. Scores are integers: only their order and the comparison with
 * the precision threshold matter to the extraction.
 */
module AutoGui {
  import opened Wrappers

  const I32_MAX := 0x7FFF_FFFF

  function Max(a: int, b: int): int { if a >= b then a else b }
  function Min(a: int, b: int): int { if a <= b then a else b }
  function Abs(n: int): nat { if n < 0 then -n else n }

  // ---------------------------------------------------------------------------
  // Regions, results and the result filter
  // ---------------------------------------------------------------------------

  /** A sub-rectangle of the screen to search in. */
  datatype FindImageRegion = FindImageRegion(left: nat, top: nat, width: nat, height: nat)

  /** `FindImageRegion::region`; a failed size assertion (a panic) is `None`. */
  function Region(left: nat, top: nat, width: nat, height: nat): (r: Option<FindImageRegion>)
    ensures r.None? <==> width == 0 || height == 0
    ensures r.Some? ==> r.value.width > 0 && r.value.height > 0
    ensures r.Some? ==> r.value == FindImageRegion(left, top, width, height)
  {
    if width == 0 then None
    else if height == 0 then None
    else Some(FindImageRegion(left, top, width, height))
  }

  /** An accepted match: the surface cell of a peak and its score. */
  datatype FindImageResult = FindImageResult(left: nat, top: nat, precision: int)

  /** What a search returns: the template's size and the accepted matches. */
  datatype FindImageResults = FindImageResults(width: nat, height: nat, list: seq<FindImageResult>)

  /** The exclusion window: candidates this close to an accepted match are discarded. */
  datatype FindImageResultFilter = FindImageResultFilter(xDelta: nat, yDelta: nat)

  /** The filter used when the caller gives none. */
  const DEFAULT_FILTER := FindImageResultFilter(5, 5)

  function FilterOrDefault(resultFilter: Option<FindImageResultFilter>): FindImageResultFilter
  {
    if resultFilter.Some? then resultFilter.value else DEFAULT_FILTER
  }

  /** `u32::saturating_sub`. */
  function SaturatingSub(a: nat, b: nat): nat
  {
    if a >= b then a - b else 0
  }

  /**
   * `FindImageResultFilter::need_filter`: the candidate cell (cx, cy) lies in
   * the inclusive window of half-widths (xDelta, yDelta) around `result`.
   */
  function NeedFilter(filter: FindImageResultFilter, result: FindImageResult, cx: nat, cy: nat): (r: bool)
    ensures r <==> Abs(cx - result.left) <= filter.xDelta && Abs(cy - result.top) <= filter.yDelta
  {
    if cx < SaturatingSub(result.left, filter.xDelta) then false
    else if cx > result.left + filter.xDelta then false
    else if cy < SaturatingSub(result.top, filter.yDelta) then false
    else if cy > result.top + filter.yDelta then false
    else true
  }

  /** Swapping the candidate and the accepted point does not change the answer. */
  lemma NeedFilterSymmetric(filter: FindImageResultFilter, p: FindImageResult, q: FindImageResult)
    ensures NeedFilter(filter, p, q.left, q.top) == NeedFilter(filter, q, p.left, p.top)
  {
  }

  /** `list.iter().any(|x| need_filter(x, candidate))`. */
  predicate Collides(filter: FindImageResultFilter, list: seq<FindImageResult>, cx: nat, cy: nat)
  {
    exists k :: 0 <= k < |list| && NeedFilter(filter, list[k], cx, cy)
  }

  /** No result of `list` collides with a result accepted before it. */
  predicate NoCollisions(filter: FindImageResultFilter, list: seq<FindImageResult>)
  {
    forall k, l :: 0 <= k < l < |list| ==> !NeedFilter(filter, list[k], list[l].left, list[l].top)
  }

  /** Precisions never increase along `list`. */
  predicate NonIncreasing(list: seq<FindImageResult>)
  {
    forall k, l :: 0 <= k < l < |list| ==> list[k].precision >= list[l].precision
  }

  // ---------------------------------------------------------------------------
  // Rectangles
  // ---------------------------------------------------------------------------

  /** OpenCV's `Rect`: origin (x, y), size width x height, in i32 arithmetic. */
  datatype Rect = Rect(x: int, y: int, width: int, height: int)

  /** The cell (px, py) lies inside `r`. */
  predicate Contains(r: Rect, px: int, py: int)
  {
    r.x <= px < r.x + r.width && r.y <= py < r.y + r.height
  }

  /** `r` is a non-empty rectangle lying inside a grid of `cols` x `rows` cells. */
  predicate Fits(r: Rect, cols: int, rows: int)
  {
    0 <= r.x <= cols - 1 && 0 <= r.y <= rows - 1 &&
    1 <= r.width <= cols - r.x && 1 <= r.height <= rows - r.y
  }

  /**
   * `clamp_rect`: moves the origin into the grid and shrinks the size to what
   * is left of the grid from there, keeping at least one cell per direction.
   */
  function ClampRect(r: Rect, cols: int, rows: int): (c: Rect)
    ensures cols >= 1 && rows >= 1 ==> Fits(c, cols, rows)
    ensures Fits(r, cols, rows) ==> c == r
  {
    var x := Min(Max(r.x, 0), cols - 1);
    var y := Min(Max(r.y, 0), rows - 1);
    var w := Min(Max(r.width, 1), cols - x);
    var h := Min(Max(r.height, 1), rows - y);
    Rect(x, y, w, h)
  }

  /** Clamping an already clamped rectangle returns it unchanged. */
  lemma ClampRectIdempotent(r: Rect, cols: int, rows: int)
    requires cols >= 1 && rows >= 1
    ensures ClampRect(ClampRect(r, cols, rows), cols, rows) == ClampRect(r, cols, rows)
  {
  }

  /**
   * Clamping never loses a cell of the grid that the rectangle covered, where
   * an empty size counts as one cell, as clamping makes it.
   */
  lemma ClampRectKeepsCell(r: Rect, cols: int, rows: int, px: int, py: int)
    requires r.x <= px < r.x + Max(r.width, 1) && r.y <= py < r.y + Max(r.height, 1)
    requires 0 <= px < cols && 0 <= py < rows
    ensures Contains(ClampRect(r, cols, rows), px, py)
  {
  }

  /** The template plus the filter margins on both sides stays within i32 (no u32 overflow, no wrapping cast). */
  predicate SuppressionFits(filter: FindImageResultFilter, templateCols: nat, templateRows: nat)
  {
    templateCols + 2 * filter.xDelta <= I32_MAX && templateRows + 2 * filter.yDelta <= I32_MAX
  }

  /**
   * The suppression rectangle before clamping: it starts `xDelta`/`yDelta`
   * before the peak (but not before 0) and spans the template plus both margins.
   */
  function SuppressRect(filter: FindImageResultFilter, peakX: nat, peakY: nat,
                        templateCols: nat, templateRows: nat): (r: Rect)
    requires SuppressionFits(filter, templateCols, templateRows)
    ensures r.x <= peakX < r.x + Max(r.width, 1) && r.y <= peakY < r.y + Max(r.height, 1)
    ensures 0 <= r.x && 0 <= r.y && r.width <= I32_MAX && r.height <= I32_MAX
  {
    Rect(Max(peakX - filter.xDelta, 0), Max(peakY - filter.yDelta, 0),
         templateCols + filter.xDelta * 2, templateRows + filter.yDelta * 2)
  }

  /** The rectangle of the surface that is zero-filled after visiting a peak. */
  function SuppressionArea(filter: FindImageResultFilter, peakX: nat, peakY: nat,
                           templateCols: nat, templateRows: nat, cols: nat, rows: nat): (r: Rect)
    requires SuppressionFits(filter, templateCols, templateRows)
    requires peakX < cols && peakY < rows
    ensures Fits(r, cols, rows)
    ensures Contains(r, peakX, peakY)
  {
    var raw := SuppressRect(filter, peakX, peakY, templateCols, templateRows);
    ClampRectKeepsCell(raw, cols, rows, peakX, peakY);
    ClampRect(raw, cols, rows)
  }

  // ---------------------------------------------------------------------------
  // The guard and the extraction loop
  // ---------------------------------------------------------------------------

  /** The template is wider or taller than the (cropped) screen: no alignment is possible. */
  predicate TemplateExceedsScreen(templateCols: nat, templateRows: nat, screenCols: nat, screenRows: nat)
  {
    templateCols > screenCols || templateRows > screenRows
  }

  /** The cell (i, j) comes before the cell (i', j') in row-major order. */
  predicate RowMajorBefore(i: int, j: int, i': int, j': int)
  {
    i < i' || (i == i' && j < j')
  }

  /**
   * `min_max_loc`, maximum half: the largest score of a non-empty surface and
   * the first cell, in row-major order, holding it.
   */
  method MaxLoc(a: array2<int>) returns (maxVal: int, maxX: nat, maxY: nat)
    requires a.Length0 >= 1 && a.Length1 >= 1
    ensures maxY < a.Length0 && maxX < a.Length1 && maxVal == a[maxY, maxX]
    ensures forall i, j :: 0 <= i < a.Length0 && 0 <= j < a.Length1 ==> a[i, j] <= maxVal
    ensures forall i, j :: 0 <= i < a.Length0 && 0 <= j < a.Length1 && RowMajorBefore(i, j, maxY, maxX) ==>
              a[i, j] < maxVal
  {
    maxVal, maxX, maxY := a[0, 0], 0, 0;
    var i := 0;
    while i < a.Length0
      invariant 0 <= i <= a.Length0
      invariant maxY < a.Length0 && maxX < a.Length1 && maxVal == a[maxY, maxX]
      invariant maxY < i || (maxY == 0 && maxX == 0)
      invariant forall r, c :: 0 <= r < i && 0 <= c < a.Length1 ==> a[r, c] <= maxVal
      invariant forall r, c :: 0 <= r < a.Length0 && 0 <= c < a.Length1 && RowMajorBefore(r, c, maxY, maxX) ==>
                  a[r, c] < maxVal
    {
      var j := 0;
      while j < a.Length1
        invariant 0 <= j <= a.Length1
        invariant maxY < a.Length0 && maxX < a.Length1 && maxVal == a[maxY, maxX]
        invariant RowMajorBefore(maxY, maxX, i, j) || (maxY == 0 && maxX == 0)
        invariant forall r, c :: 0 <= r < a.Length0 && 0 <= c < a.Length1 && RowMajorBefore(r, c, i, j) ==>
                    a[r, c] <= maxVal
        invariant forall r, c :: 0 <= r < a.Length0 && 0 <= c < a.Length1 && RowMajorBefore(r, c, maxY, maxX) ==>
                    a[r, c] < maxVal
      {
        if a[i, j] > maxVal {
          maxVal, maxX, maxY := a[i, j], j, i;
        }
        j := j + 1;
      }
      i := i + 1;
    }
  }

  /**
   * `imgproc::rectangle` with a negative thickness and colour 0: every cell of
   * `r` that lies on the surface becomes 0, every other cell is left alone.
   */
  method ZeroFill(a: array2<int>, r: Rect)
    modifies a
    ensures forall i, j :: 0 <= i < a.Length0 && 0 <= j < a.Length1 ==>
              a[i, j] == if Contains(r, j, i) then 0 else old(a[i, j])
  {
    var y0, y1 := Max(r.y, 0), Min(r.y + r.height, a.Length0);
    var x0, x1 := Max(r.x, 0), Min(r.x + r.width, a.Length1);
    var i := y0;
    while i < y1
      invariant y0 <= i && (y0 <= y1 ==> i <= y1)
      invariant forall p, q :: 0 <= p < a.Length0 && 0 <= q < a.Length1 ==>
                  a[p, q] == if Contains(r, q, p) && p < i then 0 else old(a[p, q])
    {
      var j := x0;
      while j < x1
        invariant x0 <= j && (x0 <= x1 ==> j <= x1)
        invariant forall p, q :: 0 <= p < a.Length0 && 0 <= q < a.Length1 ==>
                    a[p, q] == if Contains(r, q, p) && (p < i || (p == i && q < j)) then 0 else old(a[p, q])
      {
        a[i, j] := 0;
        j := j + 1;
      }
      i := i + 1;
    }
  }

  /** The cells of `a` whose score reaches `precision`. */
  ghost function HighCells(a: array2<int>, precision: int): set<(int, int)>
    reads a
  {
    set i, j | 0 <= i < a.Length0 && 0 <= j < a.Length1 && a[i, j] >= precision :: (i, j)
  }

  /** The scores of `a` as a value: row `i`, column `j` is `a[i, j]`. */
  ghost function Snapshot(a: array2<int>): (g: seq<seq<int>>)
    reads a
    ensures |g| == a.Length0 && forall i :: 0 <= i < |g| ==> |g[i]| == a.Length1
    ensures forall i, j :: 0 <= i < a.Length0 && 0 <= j < a.Length1 ==> g[i][j] == a[i, j]
  {
    seq(a.Length0, i requires 0 <= i < a.Length0 reads a =>
      seq(a.Length1, j requires 0 <= j < a.Length1 reads a => a[i, j]))
  }

  // ---------------------------------------------------------------------------
  // The greedy extraction as a trace over the original surface
  // ---------------------------------------------------------------------------

  /**
   * One search: the surface `orig` it starts from, of `rows` x `cols` cells,
   * and the filter, threshold and template size the loop works with. The
   * peaks a loop visits are `FindImageResult`s: a cell and the score the loop
   * read there.
   */
  datatype Scene = Scene(orig: seq<seq<int>>, rows: nat, cols: nat, filter: FindImageResultFilter,
                         precision: int, templateCols: nat, templateRows: nat)
  {
    /** `orig` has `rows` rows of `cols` scores, and the suppression rectangles stay within i32. */
    predicate Valid()
    {
      |orig| == rows && (forall i :: 0 <= i < rows ==> |orig[i]| == cols) &&
      SuppressionFits(filter, templateCols, templateRows)
    }

    predicate OnSurface(p: FindImageResult)
    {
      p.top < rows && p.left < cols
    }

    /** The rectangle zero-filled after visiting `p`. */
    function Area(p: FindImageResult): Rect
      requires Valid() && OnSurface(p)
    {
      SuppressionArea(filter, p.left, p.top, templateCols, templateRows, cols, rows)
    }

    /** The cell (x, y) lies in the suppression rectangle of one of `peaks`. */
    ghost predicate Covered(peaks: seq<FindImageResult>, x: int, y: int)
      requires Valid()
    {
      exists k :: 0 <= k < |peaks| && OnSurface(peaks[k]) && Contains(Area(peaks[k]), x, y)
    }

    /** The score of row `i`, column `j` once the rectangles of `peaks` have been zero-filled. */
    ghost function Score(peaks: seq<FindImageResult>, i: int, j: int): int
      requires Valid() && 0 <= i < rows && 0 <= j < cols
    {
      if Covered(peaks, j, i) then 0 else orig[i][j]
    }

    /** `p` is the largest score left after zero-filling around `peaks`, at the first cell holding it in row-major order. */
    ghost predicate IsFirstMax(peaks: seq<FindImageResult>, p: FindImageResult)
      requires Valid()
    {
      OnSurface(p) && p.precision == Score(peaks, p.top, p.left) &&
      forall i, j :: 0 <= i < rows && 0 <= j < cols ==>
        Score(peaks, i, j) <= p.precision &&
        (RowMajorBefore(i, j, p.top, p.left) ==> Score(peaks, i, j) < p.precision)
    }

    /**
     * `peaks` are the maxima a run of the loop visits, in order: each is the
     * first maximum left by the ones before it, and each reaches the threshold.
     */
    ghost predicate Trace(peaks: seq<FindImageResult>)
    {
      Valid() &&
      forall k :: 0 <= k < |peaks| ==> IsFirstMax(peaks[..k], peaks[k]) && peaks[k].precision >= precision
    }

    /** No score left after zero-filling around `peaks` reaches the threshold: the loop stops here. */
    ghost predicate Finished(peaks: seq<FindImageResult>)
    {
      Valid() &&
      forall i, j :: 0 <= i < rows && 0 <= j < cols ==> Score(peaks, i, j) < precision
    }
  }

  /**
   * The list the loop builds from the peaks it visits: each is pushed unless
   * it falls in the window of a result pushed before it. Every pushed result
   * is a visited peak, the first peak is always pushed, the list is free of
   * collisions and every visited peak collides with it.
   */
  function AcceptAll(filter: FindImageResultFilter, peaks: seq<FindImageResult>): seq<FindImageResult>
  {
    if peaks == [] then []
    else
      var before := AcceptAll(filter, peaks[..|peaks| - 1]);
      var p := peaks[|peaks| - 1];
      if Collides(filter, before, p.left, p.top) then before else before + [p]
  }

  /** Every pushed result is a visited peak, and the first peak is always pushed. */
  lemma {:induction false} AcceptAllSubset(filter: FindImageResultFilter, peaks: seq<FindImageResult>)
    ensures forall m :: m in AcceptAll(filter, peaks) ==> m in peaks
    ensures peaks != [] ==> AcceptAll(filter, peaks) != [] && AcceptAll(filter, peaks)[0] == peaks[0]
  {
    if peaks != [] {
      var prefix := peaks[..|peaks| - 1];
      AcceptAllSubset(filter, prefix);
      var before := AcceptAll(filter, prefix);
      forall m | m in before ensures m in peaks {
        var i :| 0 <= i < |prefix| && prefix[i] == m;
        assert peaks[i] == m;
      }
      if prefix == [] {
        assert AcceptAll(filter, peaks) == [peaks[0]];
      }
    }
  }

  /** No pushed result lies in the window of one pushed before it. */
  lemma {:induction false} AcceptAllNoCollisions(filter: FindImageResultFilter, peaks: seq<FindImageResult>)
    ensures NoCollisions(filter, AcceptAll(filter, peaks))
  {
    if peaks != [] {
      var prefix := peaks[..|peaks| - 1];
      var p := peaks[|peaks| - 1];
      AcceptAllNoCollisions(filter, prefix);
      var before := AcceptAll(filter, prefix);
      var list := AcceptAll(filter, peaks);
      forall k, l | 0 <= k < l < |list| ensures !NeedFilter(filter, list[k], list[l].left, list[l].top) {
        assert list[k] == before[k];
        if l < |before| {
          assert list[l] == before[l];
        }
      }
    }
  }

  /** Every visited peak is a pushed result or lies in the window of one. */
  lemma {:induction false} AcceptAllCovers(filter: FindImageResultFilter, peaks: seq<FindImageResult>)
    ensures forall k :: 0 <= k < |peaks| ==> Collides(filter, AcceptAll(filter, peaks), peaks[k].left, peaks[k].top)
  {
    if peaks != [] {
      var prefix := peaks[..|peaks| - 1];
      var p := peaks[|peaks| - 1];
      AcceptAllCovers(filter, prefix);
      var before := AcceptAll(filter, prefix);
      var list := AcceptAll(filter, peaks);
      assert before <= list;
      forall k | 0 <= k < |peaks| ensures Collides(filter, list, peaks[k].left, peaks[k].top) {
        if k < |prefix| {
          assert prefix[k] == peaks[k];
          CollidesGrows(filter, before, list, peaks[k].left, peaks[k].top);
        } else if !Collides(filter, before, p.left, p.top) {
          assert NeedFilter(filter, list[|before|], p.left, p.top);
        }
      }
    }
  }

  lemma CollidesGrows(filter: FindImageResultFilter, list: seq<FindImageResult>, list': seq<FindImageResult>,
                      cx: nat, cy: nat)
    requires list <= list'
    requires Collides(filter, list, cx, cy)
    ensures Collides(filter, list', cx, cy)
  {
    var k :| 0 <= k < |list| && NeedFilter(filter, list[k], cx, cy);
    assert list'[k] == list[k];
  }

  /** Appending a candidate that collides with nothing and scores no higher than the last match keeps the list's invariants. */
  lemma AcceptKeepsOrder(filter: FindImageResultFilter, list: seq<FindImageResult>, candidate: FindImageResult)
    requires NoCollisions(filter, list) && NonIncreasing(list)
    requires !Collides(filter, list, candidate.left, candidate.top)
    requires list != [] ==> list[|list| - 1].precision >= candidate.precision
    ensures NoCollisions(filter, list + [candidate]) && NonIncreasing(list + [candidate])
  {
    var list' := list + [candidate];
    forall k, l | 0 <= k < l < |list'|
      ensures !NeedFilter(filter, list'[k], list'[l].left, list'[l].top)
      ensures list'[k].precision >= list'[l].precision
    {
      if l == |list| {
        assert list'[k] == list[k];
        if k < |list| - 1 {
          assert list[k].precision >= list[|list| - 1].precision;
        }
      }
    }
  }

  /** Pushing a subsequence of non-increasing peaks keeps the precisions non-increasing. */
  lemma {:induction false} AcceptAllKeepsOrder(filter: FindImageResultFilter, peaks: seq<FindImageResult>)
    requires NonIncreasing(peaks)
    ensures NonIncreasing(AcceptAll(filter, peaks))
  {
    if peaks != [] {
      var prefix := peaks[..|peaks| - 1];
      var p := peaks[|peaks| - 1];
      assert NonIncreasing(prefix) by {
        forall k, l | 0 <= k < l < |prefix| ensures prefix[k].precision >= prefix[l].precision {
          assert prefix[k] == peaks[k] && prefix[l] == peaks[l];
        }
      }
      AcceptAllKeepsOrder(filter, prefix);
      var before := AcceptAll(filter, prefix);
      AcceptAllSubset(filter, prefix);
      AcceptAllNoCollisions(filter, prefix);
      if !Collides(filter, before, p.left, p.top) && before != [] {
        var last := before[|before| - 1];
        assert last in prefix;
        var i :| 0 <= i < |prefix| && prefix[i] == last;
        assert peaks[i] == last;
        AcceptKeepsOrder(filter, before, p);
      }
    }
  }

  /** Covering by `peaks + [p]` is covering by `peaks` or by the rectangle of `p`. */
  lemma CoveredExtends(s: Scene, peaks: seq<FindImageResult>, p: FindImageResult, x: int, y: int)
    requires s.Valid() && s.OnSurface(p)
    ensures s.Covered(peaks + [p], x, y) <==> s.Covered(peaks, x, y) || Contains(s.Area(p), x, y)
  {
    var q := peaks + [p];
    if s.Covered(q, x, y) {
      var k :| 0 <= k < |q| && s.OnSurface(q[k]) && Contains(s.Area(q[k]), x, y);
      if k < |peaks| {
        assert q[k] == peaks[k];
      }
    }
    if s.Covered(peaks, x, y) {
      var k :| 0 <= k < |peaks| && s.OnSurface(peaks[k]) && Contains(s.Area(peaks[k]), x, y);
      assert q[k] == peaks[k];
    }
    assert q[|peaks|] == p;
  }

  /** A cell covered by the first `k` peaks stays covered by the first `l >= k`. */
  lemma CoveredPrefix(s: Scene, peaks: seq<FindImageResult>, k: nat, l: nat, x: int, y: int)
    requires s.Valid() && k <= l <= |peaks|
    ensures s.Covered(peaks[..k], x, y) ==> s.Covered(peaks[..l], x, y)
  {
    if s.Covered(peaks[..k], x, y) {
      var m :| 0 <= m < k && s.OnSurface(peaks[..k][m]) && Contains(s.Area(peaks[..k][m]), x, y);
      assert peaks[..l][m] == peaks[..k][m];
    }
  }

  /** A trace extended by the first maximum left by it, when that reaches the threshold, is a trace. */
  lemma TraceExtends(s: Scene, peaks: seq<FindImageResult>, p: FindImageResult)
    requires s.Trace(peaks) && s.IsFirstMax(peaks, p) && p.precision >= s.precision
    ensures s.Trace(peaks + [p])
  {
    var q := peaks + [p];
    forall k | 0 <= k < |q| ensures s.IsFirstMax(q[..k], q[k]) && q[k].precision >= s.precision {
      if k < |peaks| {
        assert q[..k] == peaks[..k] && q[k] == peaks[k];
      } else {
        assert q[..k] == peaks;
      }
    }
  }

  /**
   * With a positive threshold every visited peak was never zeroed, so it
   * reports the original score of its cell, and the scores of the visited
   * peaks never increase along the trace.
   */
  lemma TracePeaksOriginal(s: Scene, peaks: seq<FindImageResult>)
    requires s.precision > 0 && s.Trace(peaks)
    ensures forall k :: 0 <= k < |peaks| ==>
              s.OnSurface(peaks[k]) && peaks[k].precision >= s.precision &&
              !s.Covered(peaks[..k], peaks[k].left, peaks[k].top) &&
              peaks[k].precision == s.orig[peaks[k].top][peaks[k].left]
    ensures NonIncreasing(peaks)
  {
    forall k, l | 0 <= k < l < |peaks| ensures peaks[k].precision >= peaks[l].precision {
      var p := peaks[l];
      assert s.IsFirstMax(peaks[..l], p);
      assert !s.Covered(peaks[..l], p.left, p.top);
      CoveredPrefix(s, peaks, k, l, p.left, p.top);
      assert s.IsFirstMax(peaks[..k], peaks[k]);
      assert s.Score(peaks[..k], p.top, p.left) == p.precision;
    }
  }

  /**
   * Any state of the loop with a positive threshold: every accepted match
   * reaches the threshold, lies on the surface and reports the original score
   * of its cell; no two matches collide; precisions never increase; and each
   * visited peak is an accepted match or lies in the window of one.
   */
  lemma TraceMatches(s: Scene, peaks: seq<FindImageResult>, list: seq<FindImageResult>)
    requires s.precision > 0 && s.Trace(peaks) && list == AcceptAll(s.filter, peaks)
    ensures forall m :: m in list ==>
              m.precision >= s.precision && s.OnSurface(m) && m.precision == s.orig[m.top][m.left]
    ensures NoCollisions(s.filter, list) && NonIncreasing(list)
    ensures forall k :: 0 <= k < |peaks| ==> Collides(s.filter, list, peaks[k].left, peaks[k].top)
  {
    TracePeaksOriginal(s, peaks);
    AcceptAllSubset(s.filter, peaks);
    AcceptAllNoCollisions(s.filter, peaks);
    AcceptAllCovers(s.filter, peaks);
    AcceptAllKeepsOrder(s.filter, peaks);
    forall m | m in list
      ensures m.precision >= s.precision && s.OnSurface(m) && m.precision == s.orig[m.top][m.left]
    {
      var k :| 0 <= k < |peaks| && peaks[k] == m;
    }
  }

  /**
   * A finished run with a positive threshold: the list is empty exactly when
   * no original score reaches the threshold; otherwise its first match is the
   * first peak, the best score of the whole surface at the first cell holding
   * it.
   */
  lemma FinishedBest(s: Scene, peaks: seq<FindImageResult>, list: seq<FindImageResult>)
    requires s.precision > 0 && s.Trace(peaks) && s.Finished(peaks) && list == AcceptAll(s.filter, peaks)
    ensures list != [] <==> exists i, j :: 0 <= i < s.rows && 0 <= j < s.cols && s.orig[i][j] >= s.precision
    ensures list != [] ==>
              list[0] == peaks[0] &&
              forall i, j :: 0 <= i < s.rows && 0 <= j < s.cols ==>
                s.orig[i][j] <= list[0].precision &&
                (RowMajorBefore(i, j, list[0].top, list[0].left) ==> s.orig[i][j] < list[0].precision)
  {
    AcceptAllSubset(s.filter, peaks);
    forall i, j | 0 <= i < s.rows && 0 <= j < s.cols ensures s.Score([], i, j) == s.orig[i][j] {
      assert !s.Covered([], j, i);
    }
    if peaks != [] {
      TracePeaksOriginal(s, peaks);
      assert s.IsFirstMax(peaks[..0], peaks[0]) && peaks[..0] == [];
    }
  }

  /** When the loop stops, every original score reaching the threshold was zero-filled around some visited peak. */
  lemma FinishedCovers(s: Scene, peaks: seq<FindImageResult>)
    requires s.Finished(peaks)
    ensures forall i, j :: 0 <= i < s.rows && 0 <= j < s.cols && s.orig[i][j] >= s.precision ==>
              s.Covered(peaks, j, i)
  {
    forall i, j | 0 <= i < s.rows && 0 <= j < s.cols && s.orig[i][j] >= s.precision
      ensures s.Covered(peaks, j, i)
    {
      assert s.Score(peaks, i, j) < s.precision;
    }
  }

  /**
   * With a threshold of 0 or below no run that has visited a peak is ever
   * finished: the zeros written around the first peak reach the threshold
   * however many rounds follow, so the loop stops only if it stops at once.
   */
  lemma NonPositivePrecisionNeverFinishes(s: Scene, peaks: seq<FindImageResult>)
    requires s.precision <= 0 && s.Trace(peaks) && peaks != []
    ensures !s.Finished(peaks)
  {
    var p := peaks[0];
    assert s.IsFirstMax(peaks[..0], p);
    assert Contains(s.Area(p), p.left, p.top);
    assert s.Covered(peaks, p.left, p.top);
    assert s.Score(peaks, p.top, p.left) == 0;
  }

  /** The first maximum left by a set of peaks is unique. */
  lemma FirstMaxUnique(s: Scene, peaks: seq<FindImageResult>, p: FindImageResult, q: FindImageResult)
    requires s.Valid() && s.IsFirstMax(peaks, p) && s.IsFirstMax(peaks, q)
    ensures p == q
  {
    assert !RowMajorBefore(p.top, p.left, q.top, q.left);
    assert !RowMajorBefore(q.top, q.left, p.top, p.left);
  }

  /** Two traces of the same search agree on their common prefix. */
  lemma {:induction false} TracePrefixAgree(s: Scene, p1: seq<FindImageResult>, p2: seq<FindImageResult>, n: nat)
    requires s.Trace(p1) && s.Trace(p2) && n <= |p1| && n <= |p2|
    ensures p1[..n] == p2[..n]
  {
    if n > 0 {
      TracePrefixAgree(s, p1, p2, n - 1);
      assert s.IsFirstMax(p1[..n - 1], p1[n - 1]) && s.IsFirstMax(p2[..n - 1], p2[n - 1]);
      FirstMaxUnique(s, p1[..n - 1], p1[n - 1], p2[n - 1]);
      assert p1[..n] == p1[..n - 1] + [p1[n - 1]] && p2[..n] == p2[..n - 1] + [p2[n - 1]];
    }
  }

  /** Every proper prefix of a trace is unfinished: the next peak still reaches the threshold. */
  lemma PrefixUnfinished(s: Scene, q: seq<FindImageResult>, n: nat)
    requires s.Trace(q)
    ensures n < |q| ==> !s.Finished(q[..n])
  {
    if n < |q| {
      var p := q[n];
      assert s.IsFirstMax(q[..n], p) && p.precision >= s.precision;
      assert s.Score(q[..n], p.top, p.left) >= s.precision;
    }
  }

  /**
   * The outcome of the loop is determined by the search: two finished traces
   * of the same scene are equal, so are the lists built from them and the
   * surfaces left behind.
   */
  lemma TraceUnique(s: Scene, p1: seq<FindImageResult>, p2: seq<FindImageResult>)
    requires s.Trace(p1) && s.Finished(p1) && s.Trace(p2) && s.Finished(p2)
    ensures p1 == p2
  {
    var n := if |p1| <= |p2| then |p1| else |p2|;
    TracePrefixAgree(s, p1, p2, n);
    assert p1[..|p1|] == p1 && p2[..|p2|] == p2;
    PrefixUnfinished(s, p2, |p1|);
    PrefixUnfinished(s, p1, |p2|);
  }

  // ---------------------------------------------------------------------------
  // The guard and the extraction loop
  // ---------------------------------------------------------------------------

  /** Every cell of `surface` holds the score `s` leaves after zero-filling around `peaks`. */
  ghost predicate Masked(surface: array2<int>, s: Scene, peaks: seq<FindImageResult>)
    reads surface
  {
    s.Valid() && s.rows == surface.Length0 && s.cols == surface.Length1 &&
    forall i, j :: 0 <= i < s.rows && 0 <= j < s.cols ==> surface[i, j] == s.Score(peaks, i, j)
  }

  /**
   * What the extraction loop leaves behind for the search `s`: the visited
   * `peaks` are a finished trace, `list` is what the loop pushes from them,
   * and `surface` is the original one zero-filled around every visited peak.
   * `TraceUnique` shows that this determines all three.
   */
  ghost predicate Extracted(surface: array2<int>, s: Scene, list: seq<FindImageResult>, peaks: seq<FindImageResult>)
    reads surface
  {
    s.Trace(peaks) && s.Finished(peaks) && list == AcceptAll(s.filter, peaks) && Masked(surface, s, peaks)
  }

  /**
   * The dimension guard and the extraction of `find_image_on_screen`.
   * `surface` is the correlation surface of the screen (after the optional
   * crop) with the template; when the guard fires it is neither read nor
   * written, as the source never computes it. The ghost `peaks` are the
   * maxima visited by the loop, accepted or not.
   */
  method FindImageOnScreen(surface: array2<int>, templateCols: nat, templateRows: nat,
                           screenCols: nat, screenRows: nat, precision: int,
                           resultFilter: Option<FindImageResultFilter>)
    returns (results: FindImageResults, ghost peaks: seq<FindImageResult>)
    requires !TemplateExceedsScreen(templateCols, templateRows, screenCols, screenRows) ==>
               surface.Length1 == screenCols - templateCols + 1 &&
               surface.Length0 == screenRows - templateRows + 1 &&
               (precision > 0 ||
                forall i, j :: 0 <= i < surface.Length0 && 0 <= j < surface.Length1 ==> surface[i, j] < precision)
    requires SuppressionFits(FilterOrDefault(resultFilter), templateCols, templateRows)
    modifies surface
    ensures results.width == templateCols && results.height == templateRows
    ensures TemplateExceedsScreen(templateCols, templateRows, screenCols, screenRows) ==>
              results.list == [] && peaks == [] && unchanged(surface)
    ensures !TemplateExceedsScreen(templateCols, templateRows, screenCols, screenRows) ==>
              Extracted(surface, Scene(old(Snapshot(surface)), surface.Length0, surface.Length1,
                                       FilterOrDefault(resultFilter), precision, templateCols, templateRows),
                        results.list, peaks)
  {
    if TemplateExceedsScreen(templateCols, templateRows, screenCols, screenRows) {
      return FindImageResults(templateCols, templateRows, []), [];
    }
    var list;
    list, peaks := SuppressPeaks(surface, FilterOrDefault(resultFilter), precision, templateCols, templateRows);
    results := FindImageResults(templateCols, templateRows, list);
  }

  /**
   * The `loop` of `find_image_on_screen`: take the maximum, stop below the
   * threshold, accept it unless it collides with an accepted match, zero-fill
   * the clamped suppression rectangle around it, repeat. A threshold of 0 or
   * below is accepted only when the loop stops at once.
   */
  method SuppressPeaks(surface: array2<int>, filter: FindImageResultFilter, precision: int,
                       templateCols: nat, templateRows: nat)
    returns (list: seq<FindImageResult>, ghost peaks: seq<FindImageResult>)
    requires surface.Length0 >= 1 && surface.Length1 >= 1
    requires SuppressionFits(filter, templateCols, templateRows)
    requires precision > 0 ||
             forall i, j :: 0 <= i < surface.Length0 && 0 <= j < surface.Length1 ==> surface[i, j] < precision
    modifies surface
    ensures Extracted(surface, Scene(old(Snapshot(surface)), surface.Length0, surface.Length1,
                                     filter, precision, templateCols, templateRows), list, peaks)
  {
    ghost var s := Scene(Snapshot(surface), surface.Length0, surface.Length1,
                         filter, precision, templateCols, templateRows);
    list := [];
    peaks := [];
    while true
      invariant s.Trace(peaks) && Masked(surface, s, peaks) && list == AcceptAll(filter, peaks)
      invariant precision > 0 ||
                forall i, j :: 0 <= i < surface.Length0 && 0 <= j < surface.Length1 ==> surface[i, j] < precision
      decreases HighCells(surface, precision)
    {
      var maxVal, maxX, maxY := MaxLoc(surface);
      if maxVal < precision {
        break;
      }
      list, peaks := ExtractStep(surface, s, filter, precision, templateCols, templateRows,
                                 list, peaks, maxVal, maxX, maxY);
    }
  }

  /** The maximum `MaxLoc` finds on a masked surface is the first maximum the scene leaves. */
  lemma MaxIsFirstMax(surface: array2<int>, s: Scene, peaks: seq<FindImageResult>, p: FindImageResult)
    requires Masked(surface, s, peaks)
    requires p.top < surface.Length0 && p.left < surface.Length1 && p.precision == surface[p.top, p.left]
    requires forall i, j :: 0 <= i < surface.Length0 && 0 <= j < surface.Length1 ==> surface[i, j] <= p.precision
    requires forall i, j :: 0 <= i < surface.Length0 && 0 <= j < surface.Length1 && RowMajorBefore(i, j, p.top, p.left) ==>
               surface[i, j] < p.precision
    ensures s.IsFirstMax(peaks, p)
  {
  }

  /**
   * One round that does not stop: the maximum is a new visited peak, it is
   * pushed unless it collides with an accepted match, and its suppression
   * rectangle is zero-filled. The loop's invariant carries over and the set
   * of cells reaching the threshold strictly shrinks.
   */
  method ExtractStep(surface: array2<int>, ghost s: Scene, filter: FindImageResultFilter, precision: int,
                     templateCols: nat, templateRows: nat,
                     list: seq<FindImageResult>, ghost peaks: seq<FindImageResult>,
                     maxVal: int, maxX: nat, maxY: nat)
    returns (list': seq<FindImageResult>, ghost peaks': seq<FindImageResult>)
    requires s == Scene(s.orig, surface.Length0, surface.Length1, filter, precision, templateCols, templateRows)
    requires precision > 0
    requires s.Trace(peaks) && Masked(surface, s, peaks) && list == AcceptAll(filter, peaks)
    requires maxY < surface.Length0 && maxX < surface.Length1 && maxVal == surface[maxY, maxX]
    requires forall i, j :: 0 <= i < surface.Length0 && 0 <= j < surface.Length1 ==> surface[i, j] <= maxVal
    requires forall i, j :: 0 <= i < surface.Length0 && 0 <= j < surface.Length1 && RowMajorBefore(i, j, maxY, maxX) ==>
               surface[i, j] < maxVal
    requires maxVal >= precision
    modifies surface
    ensures peaks' == peaks + [FindImageResult(maxX, maxY, maxVal)]
    ensures list' == if Collides(filter, list, maxX, maxY) then list else list + [FindImageResult(maxX, maxY, maxVal)]
    ensures forall i, j :: 0 <= i < surface.Length0 && 0 <= j < surface.Length1 ==>
              surface[i, j] == if Contains(s.Area(FindImageResult(maxX, maxY, maxVal)), j, i) then 0 else old(surface[i, j])
    ensures s.Trace(peaks') && Masked(surface, s, peaks') && list' == AcceptAll(filter, peaks')
    ensures HighCells(surface, precision) < old(HighCells(surface, precision))
  {
    var candidate := FindImageResult(maxX, maxY, maxVal);
    MaxIsFirstMax(surface, s, peaks, candidate);
    TraceExtends(s, peaks, candidate);
    peaks' := peaks + [candidate];
    assert peaks'[..|peaks|] == peaks;
    if Collides(filter, list, maxX, maxY) {
      list' := list;
    } else {
      list' := list + [candidate];
    }
    var area := SuppressionArea(filter, maxX, maxY, templateCols, templateRows, surface.Length1, surface.Length0);
    SuppressAround(surface, area, precision, maxX, maxY);
    forall i, j | 0 <= i < surface.Length0 && 0 <= j < surface.Length1
      ensures surface[i, j] == s.Score(peaks', i, j)
    {
      CoveredExtends(s, peaks, candidate, j, i);
    }
  }

  /**
   * One suppression step, `ZeroFill` of `area` around the peak (x, y): the
   * cells reaching a positive threshold shrink strictly, as the peak leaves
   * them and no cell joins them.
   */
  method SuppressAround(a: array2<int>, area: Rect, precision: int, x: int, y: int)
    requires precision > 0
    requires 0 <= y < a.Length0 && 0 <= x < a.Length1 && Contains(area, x, y) && a[y, x] >= precision
    modifies a
    ensures forall i, j :: 0 <= i < a.Length0 && 0 <= j < a.Length1 ==>
              a[i, j] == if Contains(area, j, i) then 0 else old(a[i, j])
    ensures HighCells(a, precision) < old(HighCells(a, precision))
  {
    ghost var before := HighCells(a, precision);
    ZeroFill(a, area);
    forall c | c in HighCells(a, precision) ensures c in before {
      var (i, j) := c;
      assert a[i, j] >= precision;
    }
    assert (y, x) in before;
    assert (y, x) !in HighCells(a, precision);
  }
}
