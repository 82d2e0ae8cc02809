/** Rectangular pixel grids, indexed `g[row][col]` as numpy indexes `img[y, x]`. */
module Grids {

  type Grid<T> = seq<seq<T>>

  /** Every row has the length of the first one (a numpy 2-D array). */
  predicate Rectangular<T>(g: Grid<T>) {
    forall i :: 0 <= i < |g| ==> |g[i]| == |g[0]|
  }

  /** `img.shape[0]` */
  function Rows<T>(g: Grid<T>): nat { |g| }

  /** `img.shape[1]` */
  function Cols<T>(g: Grid<T>): nat { if |g| == 0 then 0 else |g[0]| }

  /** The grid has exactly `h` rows of `w` columns each. */
  predicate HasShape<T>(g: Grid<T>, h: int, w: int) {
    |g| == h && forall i :: 0 <= i < |g| ==> |g[i]| == w
  }

  function Min(a: int, b: int): int { if a <= b then a else b }

  function Max(a: int, b: int): int { if a >= b then a else b }
}
