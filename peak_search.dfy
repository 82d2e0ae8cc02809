/** Windowed peak search: `findLocalMaxPos` and `findLocalMaxValue`. */
module PeakSearch {
  import opened Wrappers
  import opened Grids

  /** A filter-response pixel; None is NaN, which marks a cropped pixel. */
  type Response = Option<real>

  /** The `pd.Series({'maxX': ..., 'maxY': ...})` that findLocalMaxPos returns. */
  datatype Location = Location(maxX: int, maxY: int)

  /** A half-open index range `[lo, hi)` of one image axis. */
  datatype Interval = Interval(lo: int, hi: int)

  /** Python's `int(x)`: truncation toward zero. */
  function Truncate(x: real): int {
    if x >= 0.0 then x.Floor else -((-x).Floor)
  }

  /** `np.max([c - radius, 0]), np.min([c + radius + 1, n])` */
  function Clamp(c: int, radius: int, n: int): Interval {
    Interval(Max(c - radius, 0), Min(c + radius + 1, n))
  }

  /** The x (column) interval of the window around `x`. */
  function ColumnsAround(img: Grid<Response>, x: real, radius: int): Interval {
    Clamp(Truncate(x), radius, Cols(img))
  }

  /** The y (row) interval of the window around `y`. */
  function RowsAround(img: Grid<Response>, y: real, radius: int): Interval {
    Clamp(Truncate(y), radius, Rows(img))
  }

  /** The clamped window holds at least one pixel; findLocalMaxPos raises otherwise. */
  predicate WindowNonEmpty(img: Grid<Response>, x: real, y: real, radius: int) {
    ColumnsAround(img, x, radius).lo < ColumnsAround(img, x, radius).hi &&
    RowsAround(img, y, radius).lo < RowsAround(img, y, radius).hi
  }

  /** Pixel `(px, py)` lies in the window. */
  predicate InWindow(xs: Interval, ys: Interval, px: int, py: int) {
    xs.lo <= px < xs.hi && ys.lo <= py < ys.hi
  }

  /** `img[ys.lo:ys.hi, xs.lo:xs.hi]` for in-range bounds. */
  function SubImage<T>(img: Grid<T>, xs: Interval, ys: Interval): (sub: Grid<T>)
    requires Rectangular(img)
    requires 0 <= ys.lo <= ys.hi <= Rows(img) && 0 <= xs.lo <= xs.hi <= Cols(img)
    ensures HasShape(sub, ys.hi - ys.lo, xs.hi - xs.lo)
    ensures forall i, j :: 0 <= i < ys.hi - ys.lo && 0 <= j < xs.hi - xs.lo ==> sub[i][j] == img[ys.lo + i][xs.lo + j]
  {
    seq(ys.hi - ys.lo, i requires 0 <= i < ys.hi - ys.lo => img[ys.lo + i][xs.lo..xs.hi])
  }

  /** `subImg.flatten()`: the rows one after another (row-major order). */
  function Flatten<T>(rows: seq<seq<T>>): seq<T> {
    if rows == [] then [] else rows[0] + Flatten(rows[1..])
  }

  /** `np.nanmax`: the largest non-NaN entry; None (NaN) when every entry is NaN. */
  function NanMax(s: seq<Response>): (m: Response)
    ensures m.None? <==> forall k :: 0 <= k < |s| ==> s[k].None?
    ensures m.Some? ==> (exists k :: 0 <= k < |s| && s[k] == m) &&
                        forall k :: 0 <= k < |s| && s[k].Some? ==> s[k].value <= m.value
  {
    if |s| == 0 then None
    else
      var rest := NanMax(s[1..]);
      if s[0].None? then rest
      else if rest.None? || s[0].value >= rest.value then s[0]
      else rest
  }

  /**
   * `np.nanargmax`: the index of the first largest non-NaN entry; None where
   * numpy raises ValueError (every entry NaN).
   */
  function NanArgMax(s: seq<Response>): (r: Option<nat>)
    ensures r.None? <==> forall k :: 0 <= k < |s| ==> s[k].None?
    ensures r.Some? ==> r.value < |s| && s[r.value].Some?
    ensures r.Some? ==> forall k :: 0 <= k < |s| && s[k].Some? ==> s[k].value <= s[r.value].value
    ensures r.Some? ==> forall k :: 0 <= k < r.value && s[k].Some? ==> s[k].value < s[r.value].value
  {
    if |s| == 0 then None
    else
      var rest := NanArgMax(s[1..]);
      if s[0].None? then (if rest.None? then None else Some(rest.value + 1))
      else if rest.None? || s[0].value >= s[1..][rest.value].value then Some(0)
      else Some(rest.value + 1)
  }

  /** `np.max(subImg) == np.min(subImg)`: NaN makes both NaN, and NaN differs from itself. */
  predicate Uniform(s: seq<Response>) {
    (forall k :: 0 <= k < |s| ==> s[k].Some?) && forall k :: 0 <= k < |s| ==> s[k] == s[0]
  }

  /** The window's bounds lie inside the image and it holds at least one pixel. */
  predicate ValidWindow<T>(img: Grid<T>, xs: Interval, ys: Interval) {
    0 <= ys.lo < ys.hi <= Rows(img) && 0 <= xs.lo < xs.hi <= Cols(img)
  }

  /** Python's `a // b`: division rounding toward minus infinity. */
  function FloorDiv(a: int, b: int): int
    requires b != 0
  {
    if b > 0 then a / b else (-a) / (-b)
  }

  /** Python's `a % b`: the remainder takes the sign of the divisor. */
  function FloorMod(a: int, b: int): int
    requires b != 0
  {
    if b > 0 then a % b else -((-a) % (-b))
  }

  /** `//` and `%` split `a` into a multiple of `b` and a remainder strictly between 0 and `b` (0 included). */
  lemma FloorDivMod(a: int, b: int)
    requires b != 0
    ensures a == FloorDiv(a, b) * b + FloorMod(a, b)
    ensures if b > 0 then 0 <= FloorMod(a, b) < b else b < FloorMod(a, b) <= 0
  {
    if b > 0 {
      DivModSplit(a, b);
    } else {
      DivModSplit(-a, -b);
      assert -a == ((-a) / (-b)) * (-b) + (-a) % (-b);
    }
  }

  /**
   * `np.nanargmax(subImg)` decoded into image coordinates with `width` as
   * the row length; (0, 0) when the window is all NaN. When `width` is the
   * window's own width, the decoded pixel is the one the index names.
   */
  function WindowArgMax(img: Grid<Response>, xs: Interval, ys: Interval, width: int): (loc: Location)
    requires Rectangular(img) && ValidWindow(img, xs, ys) && width != 0
    ensures width == xs.hi - xs.lo && NanArgMax(Flatten(SubImage(img, xs, ys))).Some? ==>
              && InWindow(xs, ys, loc.maxX, loc.maxY)
              && var k := NanArgMax(Flatten(SubImage(img, xs, ys))).value;
              && k == (loc.maxY - ys.lo) * (xs.hi - xs.lo) + (loc.maxX - xs.lo)
              && img[loc.maxY][loc.maxX] == Flatten(SubImage(img, xs, ys))[k]
  {
    var sub := SubImage(img, xs, ys);
    match NanArgMax(Flatten(sub))
    case None => Location(0, 0)
    case Some(k) =>
      DecodeWindowIndex(img, xs, ys, k);
      Location(FloorMod(k, width) + xs.lo, FloorDiv(k, width) + ys.lo)
  }

  /** Flat index `k` of the window is the image pixel at column `k % width`, row `k / width` of the window. */
  lemma DecodeWindowIndex(img: Grid<Response>, xs: Interval, ys: Interval, k: int)
    requires Rectangular(img) && ValidWindow(img, xs, ys)
    requires 0 <= k < |Flatten(SubImage(img, xs, ys))|
    ensures var w := xs.hi - xs.lo;
            var px, py := k % w + xs.lo, k / w + ys.lo;
            && InWindow(xs, ys, px, py)
            && k == (py - ys.lo) * w + (px - xs.lo)
            && img[py][px] == Flatten(SubImage(img, xs, ys))[k]
  {
    var w := xs.hi - xs.lo;
    var sub := SubImage(img, xs, ys);
    FlattenLength(sub, w);
    FlattenAt(sub, w, k);
    DivModSplit(k, w);
    var a, b := k / w, k % w;
    assert sub[a][b] == img[ys.lo + a][xs.lo + b];
  }

  /**
   * findLocalMaxPos: the first brightest pixel of the window, or the position
   * itself when the window is uniform. The window is the Python slice of the
   * clamped bounds, and the arg-max is decoded with the clamped width, which
   * is negative when the upper bound is (a slice stop counted from the end).
   */
  function FindLocalMaxPos(img: Grid<Response>, x: real, y: real, radius: int): Location
    requires Rectangular(img) && SlicedWindowNonEmpty(img, x, y, radius)
  {
    var xs, ys := ColumnsAround(img, x, radius), RowsAround(img, y, radius);
    var sx, sy := Sliced(xs, Cols(img)), Sliced(ys, Rows(img));
    if !Uniform(Flatten(SubImage(img, sx, sy))) then WindowArgMax(img, sx, sy, xs.hi - xs.lo)
    else Location(Truncate(x), Truncate(y))
  }

  /** The sliced window holds at least one pixel; `np.max` of an empty window raises otherwise. */
  predicate SlicedWindowNonEmpty(img: Grid<Response>, x: real, y: real, radius: int) {
    var sx := Sliced(ColumnsAround(img, x, radius), Cols(img));
    var sy := Sliced(RowsAround(img, y, radius), Rows(img));
    sx.lo < sx.hi && sy.lo < sy.hi
  }

  /** Where a Python slice `[start:stop]` of a length-`n` axis really starts (here `start >= 0`). */
  function SliceStart(start: int, n: nat): int {
    Min(start, n)
  }

  /** Where a Python slice `[start:stop]` of a length-`n` axis really stops; a negative stop counts from the end. */
  function SliceStop(stop: int, n: nat): int {
    if stop < 0 then Max(stop + n, 0) else Min(stop, n)
  }

  /** The interval a slice with these raw bounds selects. */
  function Sliced(i: Interval, n: nat): Interval {
    Interval(SliceStart(i.lo, n), SliceStop(i.hi, n))
  }

  /**
   * findLocalMaxValue: `np.nanmax` of the same window, read as Python slices;
   * an empty window is the caught ValueError and yields 0, an all-NaN window yields NaN.
   */
  function FindLocalMaxValue(img: Grid<Response>, x: real, y: real, radius: int): Response
    requires Rectangular(img)
  {
    var xs := Sliced(ColumnsAround(img, x, radius), Cols(img));
    var ys := Sliced(RowsAround(img, y, radius), Rows(img));
    if xs.lo < 0 || ys.lo < 0 || xs.lo >= xs.hi || ys.lo >= ys.hi then Some(0.0)
    else NanMax(Flatten(SubImage(img, xs, ys)))
  }

  // ---------------------------------------------------------------------------
  // Row-major order

  lemma {:induction false} FlattenLength<T>(rows: seq<seq<T>>, w: nat)
    requires HasShape(rows, |rows|, w)
    ensures |Flatten(rows)| == |rows| * w
  {
    if rows != [] {
      FlattenLength(rows[1..], w);
      assert |rows| * w == w + (|rows| - 1) * w;
    }
  }

  /** Entry `k` of the flattened window is row `k / w`, column `k % w`. */
  lemma {:induction false} FlattenAt<T>(rows: seq<seq<T>>, w: nat, k: int)
    requires HasShape(rows, |rows|, w) && 0 <= k < |rows| * w
    ensures |Flatten(rows)| == |rows| * w
    ensures 0 <= k / w < |rows| && 0 <= k % w < w
    ensures Flatten(rows)[k] == rows[k / w][k % w]
  {
    FlattenLength(rows, w);
    if k < w {
      assert k / w == 0 && k % w == k;
    } else {
      var rest := rows[1..];
      assert |rows| * w == w + |rest| * w;
      FlattenAt(rest, w, k - w);
      DivModStep(k, w);
      FlattenPastFirstRow(rows, w, k);
      assert rest[(k - w) / w] == rows[k / w];
    }
  }

  /** Past the first row, the flattened window continues with the flattened remaining rows. */
  lemma FlattenPastFirstRow<T>(rows: seq<seq<T>>, w: nat, k: int)
    requires rows != [] && |rows[0]| == w && w <= k < |Flatten(rows)|
    ensures k - w < |Flatten(rows[1..])| && Flatten(rows)[k] == Flatten(rows[1..])[k - w]
  {
  }

  lemma {:induction false} MulBounds(d: int, w: int)
    requires w > 0
    ensures d >= 1 ==> d * w >= w
    ensures d <= -1 ==> d * w <= -w
    decreases if d >= 0 then d else -d
  {
    if d > 1 {
      MulBounds(d - 1, w);
      assert d * w == (d - 1) * w + w;
    } else if d < -1 {
      MulBounds(d + 1, w);
      assert d * w == (d + 1) * w - w;
    }
  }

  /** Euclidean division is unique: `q * w + r` with `0 <= r < w` divides into `q` and `r`. */
  lemma DivModUnique(k: int, w: int, q: int, r: int)
    requires w > 0 && 0 <= r < w && k == q * w + r
    ensures k / w == q && k % w == r
  {
    var q', r' := k / w, k % w;
    assert k == q' * w + r';
    assert (q' - q) * w == r - r';
    MulBounds(q' - q, w);
  }

  lemma DivModSplit(k: int, w: int)
    requires w > 0
    ensures k == (k / w) * w + k % w && 0 <= k % w < w
  {
  }

  lemma DivModStep(k: int, w: int)
    requires 0 < w <= k
    ensures (k - w) / w == k / w - 1 && (k - w) % w == k % w
  {
    DivModSplit(k, w);
    assert k - w == (k / w - 1) * w + k % w;
    DivModUnique(k - w, w, k / w - 1, k % w);
  }

  /** Row `a`, column `b` of a width-`w` grid sits at flat index `a * w + b`. */
  lemma DivModOf(a: int, b: int, w: int)
    requires 0 <= a && 0 <= b < w
    ensures (a * w + b) / w == a && (a * w + b) % w == b
  {
    DivModUnique(a * w + b, w, a, b);
  }

  lemma RowMajorBefore(a: int, b: int, c: int, d: int, w: int)
    requires 0 <= a && 0 <= b < w && 0 <= c && 0 <= d < w
    requires a < c || (a == c && b < d)
    ensures a * w + b < c * w + d
  {
    if a < c {
      MulBounds(c - a, w);
      assert (c - a) * w == c * w - a * w;
    }
  }

  lemma RowMajorWithin(a: int, b: int, h: int, w: int)
    requires 0 <= a < h && 0 <= b < w
    ensures a * w + b < h * w
  {
    MulBounds(h - a, w);
    assert (h - a) * w == h * w - a * w;
  }

  /** Flat index `a * w + b` lies in the flattened grid and holds `rows[a][b]`. */
  lemma FlatEntry<T>(rows: seq<seq<T>>, h: nat, w: nat, a: int, b: int)
    requires HasShape(rows, h, w) && 0 <= a < h && 0 <= b < w
    ensures 0 <= a * w + b < |Flatten(rows)| && Flatten(rows)[a * w + b] == rows[a][b]
  {
    RowMajorWithin(a, b, h, w);
    FlattenAt(rows, w, a * w + b);
    DivModOf(a, b, w);
  }

  /** Some entry of the flattened grid is not NaN exactly when some pixel of the grid is not. */
  lemma SomeInFlatten(rows: Grid<Response>, h: nat, w: nat, a: int, b: int)
    requires HasShape(rows, h, w) && 0 <= a < h && 0 <= b < w && rows[a][b].Some?
    ensures NanArgMax(Flatten(rows)).Some? && NanMax(Flatten(rows)).Some?
  {
    FlatEntry(rows, h, w, a, b);
  }

  // ---------------------------------------------------------------------------
  // What the search promises

  /**
   * Against one non-NaN window pixel: the decoded arg-max is at least as bright,
   * and strictly brighter when the pixel comes first in row-major order.
   */
  lemma WindowArgMaxBeats(img: Grid<Response>, xs: Interval, ys: Interval, px: int, py: int)
    requires Rectangular(img) && ValidWindow(img, xs, ys)
    requires InWindow(xs, ys, px, py) && img[py][px].Some?
    ensures var loc := WindowArgMax(img, xs, ys, xs.hi - xs.lo);
            && InWindow(xs, ys, loc.maxX, loc.maxY)
            && img[loc.maxY][loc.maxX].Some?
            && img[py][px].value <= img[loc.maxY][loc.maxX].value
            && ((py < loc.maxY || (py == loc.maxY && px < loc.maxX)) ==> img[py][px].value < img[loc.maxY][loc.maxX].value)
  {
    var w, h := xs.hi - xs.lo, ys.hi - ys.lo;
    var sub := SubImage(img, xs, ys);
    var i, j := py - ys.lo, px - xs.lo;
    FlatEntry(sub, h, w, i, j);
    assert Flatten(sub)[i * w + j] == img[py][px];
    var loc := WindowArgMax(img, xs, ys, xs.hi - xs.lo);
    var a, b := loc.maxY - ys.lo, loc.maxX - xs.lo;
    if a > i || (a == i && b > j) {
      RowMajorBefore(i, j, a, b, w);
    }
  }

  /**
   * The decoded arg-max of a window holding a non-NaN pixel is a window pixel
   * that holds the window's maximum; every pixel before it in row-major order is lower.
   */
  lemma WindowArgMaxIsFirstMaximum(img: Grid<Response>, xs: Interval, ys: Interval, px0: int, py0: int)
    requires Rectangular(img) && ValidWindow(img, xs, ys)
    requires InWindow(xs, ys, px0, py0) && img[py0][px0].Some?
    ensures var loc := WindowArgMax(img, xs, ys, xs.hi - xs.lo);
            && InWindow(xs, ys, loc.maxX, loc.maxY)
            && img[loc.maxY][loc.maxX].Some?
            && (forall px, py :: InWindow(xs, ys, px, py) && img[py][px].Some? ==>
                  img[py][px].value <= img[loc.maxY][loc.maxX].value)
            && (forall px, py :: InWindow(xs, ys, px, py) && img[py][px].Some? && (py < loc.maxY || (py == loc.maxY && px < loc.maxX)) ==>
                  img[py][px].value < img[loc.maxY][loc.maxX].value)
  {
    WindowArgMaxBeats(img, xs, ys, px0, py0);
    var loc := WindowArgMax(img, xs, ys, xs.hi - xs.lo);
    forall px, py | InWindow(xs, ys, px, py) && img[py][px].Some?
      ensures img[py][px].value <= img[loc.maxY][loc.maxX].value
      ensures (py < loc.maxY || (py == loc.maxY && px < loc.maxX)) ==> img[py][px].value < img[loc.maxY][loc.maxX].value
    {
      WindowArgMaxBeats(img, xs, ys, px, py);
    }
  }

  /**
   * When the window is not uniform and holds a non-NaN pixel, findLocalMaxPos
   * reports a window pixel that holds the window's maximum, and no pixel before
   * it in row-major order reaches that maximum.
   */
  lemma MaxPosIsFirstMaximum(img: Grid<Response>, x: real, y: real, radius: int, px0: int, py0: int)
    requires Rectangular(img) && WindowNonEmpty(img, x, y, radius)
    requires !Uniform(Flatten(SubImage(img, ColumnsAround(img, x, radius), RowsAround(img, y, radius))))
    requires InWindow(ColumnsAround(img, x, radius), RowsAround(img, y, radius), px0, py0) && img[py0][px0].Some?
    ensures var loc := FindLocalMaxPos(img, x, y, radius);
            var xs, ys := ColumnsAround(img, x, radius), RowsAround(img, y, radius);
            && InWindow(xs, ys, loc.maxX, loc.maxY)
            && img[loc.maxY][loc.maxX].Some?
            && (forall px, py :: InWindow(xs, ys, px, py) && img[py][px].Some? ==>
                  img[py][px].value <= img[loc.maxY][loc.maxX].value)
            && (forall px, py :: InWindow(xs, ys, px, py) && img[py][px].Some? && (py < loc.maxY || (py == loc.maxY && px < loc.maxX)) ==>
                  img[py][px].value < img[loc.maxY][loc.maxX].value)
  {
    var xs, ys := ColumnsAround(img, x, radius), RowsAround(img, y, radius);
    MaxPosOnClampedWindow(img, x, y, radius);
    WindowArgMaxIsFirstMaximum(img, xs, ys, px0, py0);
  }

  /** On a non-empty clamped window slicing changes nothing, so findLocalMaxPos decodes with the window's own width. */
  lemma MaxPosOnClampedWindow(img: Grid<Response>, x: real, y: real, radius: int)
    requires Rectangular(img) && WindowNonEmpty(img, x, y, radius)
    ensures var xs, ys := ColumnsAround(img, x, radius), RowsAround(img, y, radius);
            !Uniform(Flatten(SubImage(img, xs, ys))) ==> FindLocalMaxPos(img, x, y, radius) == WindowArgMax(img, xs, ys, xs.hi - xs.lo)
  {
    var xs, ys := ColumnsAround(img, x, radius), RowsAround(img, y, radius);
    assert Sliced(xs, Cols(img)) == xs && Sliced(ys, Rows(img)) == ys;
  }

  /**
   * A uniform window leaves the (truncated) position unchanged; an all-NaN
   * window reports (0, 0). Both hold for every window Python's slicing selects.
   */
  lemma MaxPosDegenerateWindows(img: Grid<Response>, x: real, y: real, radius: int)
    requires Rectangular(img) && SlicedWindowNonEmpty(img, x, y, radius)
    ensures var sx, sy := Sliced(ColumnsAround(img, x, radius), Cols(img)), Sliced(RowsAround(img, y, radius), Rows(img));
            Uniform(Flatten(SubImage(img, sx, sy))) ==> FindLocalMaxPos(img, x, y, radius) == Location(Truncate(x), Truncate(y))
    ensures var sx, sy := Sliced(ColumnsAround(img, x, radius), Cols(img)), Sliced(RowsAround(img, y, radius), Rows(img));
            (forall px, py :: InWindow(sx, sy, px, py) ==> img[py][px].None?) ==> FindLocalMaxPos(img, x, y, radius) == Location(0, 0)
  {
    var sx, sy := Sliced(ColumnsAround(img, x, radius), Cols(img)), Sliced(RowsAround(img, y, radius), Rows(img));
    if forall px, py :: InWindow(sx, sy, px, py) ==> img[py][px].None? {
      WindowAllNaN(img, sx, sy);
    }
  }

  /** A window with only NaN pixels flattens to NaNs and is not uniform. */
  lemma WindowAllNaN(img: Grid<Response>, xs: Interval, ys: Interval)
    requires Rectangular(img) && ValidWindow(img, xs, ys)
    requires forall px, py :: InWindow(xs, ys, px, py) ==> img[py][px].None?
    ensures NanArgMax(Flatten(SubImage(img, xs, ys))).None? && !Uniform(Flatten(SubImage(img, xs, ys)))
  {
    var w, h := xs.hi - xs.lo, ys.hi - ys.lo;
    var sub := SubImage(img, xs, ys);
    var flat := Flatten(sub);
    FlattenLength(sub, w);
    forall k | 0 <= k < |flat| ensures flat[k].None? {
      FlattenAt(sub, w, k);
      assert InWindow(xs, ys, xs.lo + k % w, ys.lo + k / w);
    }
    FlatEntry(sub, h, w, 0, 0);
  }

  /** The window's maximum is the response at the pixel its decoded arg-max names. */
  lemma WindowMaxAtArgMax(img: Grid<Response>, xs: Interval, ys: Interval, px0: int, py0: int)
    requires Rectangular(img) && ValidWindow(img, xs, ys)
    requires InWindow(xs, ys, px0, py0) && img[py0][px0].Some?
    ensures var loc := WindowArgMax(img, xs, ys, xs.hi - xs.lo);
            InWindow(xs, ys, loc.maxX, loc.maxY) && NanMax(Flatten(SubImage(img, xs, ys))) == img[loc.maxY][loc.maxX]
  {
    var w, h := xs.hi - xs.lo, ys.hi - ys.lo;
    var sub := SubImage(img, xs, ys);
    var flat := Flatten(sub);
    SomeInFlatten(sub, h, w, py0 - ys.lo, px0 - xs.lo);
    var k := NanArgMax(flat).value;
    NanMaxIsArgMax(flat);
    FlattenLength(sub, w);
    FlattenAt(sub, w, k);
  }

  /**
   * findLocalMaxValue searches the same window: it returns the window maximum,
   * which is the response at the pixel findLocalMaxPos reports whenever that
   * window is not uniform and holds a non-NaN pixel. The corrected reading
   * agrees with the code on every such window.
   */
  lemma MaxValueAtMaxPos(img: Grid<Response>, x: real, y: real, radius: int, px0: int, py0: int)
    requires Rectangular(img) && WindowNonEmpty(img, x, y, radius)
    requires !Uniform(Flatten(SubImage(img, ColumnsAround(img, x, radius), RowsAround(img, y, radius))))
    requires InWindow(ColumnsAround(img, x, radius), RowsAround(img, y, radius), px0, py0) && img[py0][px0].Some?
    ensures var loc := FindLocalMaxPos(img, x, y, radius);
            && InWindow(ColumnsAround(img, x, radius), RowsAround(img, y, radius), loc.maxX, loc.maxY)
            && FindLocalMaxValueCorrected(img, x, y, radius) == img[loc.maxY][loc.maxX]
            && FindLocalMaxValue(img, x, y, radius) == img[loc.maxY][loc.maxX]
  {
    var xs, ys := ColumnsAround(img, x, radius), RowsAround(img, y, radius);
    assert Sliced(xs, Cols(img)) == xs && Sliced(ys, Rows(img)) == ys;
    WindowMaxAtArgMax(img, xs, ys, px0, py0);
  }

  /**
   * findLocalMaxValue as its "Star outside image" handler intends it: a star
   * whose clamped window is empty yields 0, whatever the slice would select.
   */
  function FindLocalMaxValueCorrected(img: Grid<Response>, x: real, y: real, radius: int): (m: Response)
    requires Rectangular(img)
    ensures !WindowNonEmpty(img, x, y, radius) ==> m == Some(0.0)
    ensures WindowNonEmpty(img, x, y, radius) ==>
              m == NanMax(Flatten(SubImage(img, ColumnsAround(img, x, radius), RowsAround(img, y, radius))))
  {
    if WindowNonEmpty(img, x, y, radius) then FindLocalMaxValue(img, x, y, radius) else Some(0.0)
  }

  /**
   * A star two pixels left of a one-row, three-column image with radius 1: its
   * clamped column bounds are (0, -1), which Python slices as columns 0 and 1.
   * findLocalMaxValue then returns 2 instead of the 0 of a star outside the
   * image, and findLocalMaxPos decodes with width -1 to the row -1.
   */
  lemma NegativeStopReadsInsideImage()
    ensures var img := [[Some(1.0), Some(2.0), Some(3.0)]];
            && FindLocalMaxValue(img, -3.0, 0.0, 1) == Some(2.0)
            && FindLocalMaxValueCorrected(img, -3.0, 0.0, 1) == Some(0.0)
            && FindLocalMaxPos(img, -3.0, 0.0, 1) == Location(0, -1)
  {
    var img := [[Some(1.0), Some(2.0), Some(3.0)]];
    assert ColumnsAround(img, -3.0, 1) == Interval(0, -1);
    assert Sliced(Interval(0, -1), 3) == Interval(0, 2);
    assert RowsAround(img, 0.0, 1) == Interval(0, 1);
    var sub := SubImage(img, Interval(0, 2), Interval(0, 1));
    assert img[0][0..2] == [Some(1.0), Some(2.0)];
    assert sub == [[Some(1.0), Some(2.0)]];
    var flat := Flatten(sub);
    assert sub[1..] == [] && Flatten(sub[1..]) == [];
    assert flat == [Some(1.0), Some(2.0)];
    assert NanArgMax(flat) == Some(1);
    assert !Uniform(flat);
  }

  /** The two reductions agree: the maximum is the entry at the first maximal index. */
  lemma {:induction false} NanMaxIsArgMax(s: seq<Response>)
    requires NanArgMax(s).Some?
    ensures NanMax(s) == s[NanArgMax(s).value]
  {
    if s[0].None? || NanArgMax(s).value > 0 {
      NanMaxIsArgMax(s[1..]);
    }
  }
}
