/** The grid of cell states that every generation reads and produces. */
module Grids {

  /** Rows of cells; a cell holding 1 is alive, any other value counts as dead. */
  type Grid = seq<seq<int>>

  /** Every row of g has exactly cols cells (the grid is not jagged). */
  predicate IsRect(g: Grid, cols: int)
  {
    forall i :: 0 <= i < |g| ==> |g[i]| == cols
  }

  /** part is rows [lo, hi) of g, and those bounds lie within g. */
  predicate IsSlice(part: Grid, g: Grid, lo: int, hi: int)
  {
    0 <= lo <= hi <= |g| && part == g[lo..hi]
  }
}
