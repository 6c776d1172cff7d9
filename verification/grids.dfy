/** Two-dimensional grids as sequences of rows (`Array2D`), and their
    columns. */
module Grids {
  import opened Common

  /** A cell's row and column, the `(usize, usize)` indices. */
  datatype Position = Position(row: nat, col: nat)

  /** `Array2D::get`: the cell, or nothing outside the grid. */
  function Cell<T>(g: seq<seq<T>>, p: Position): (r: Option<T>)
    ensures r.Some? <==> p.row < |g| && p.col < |g[p.row]|
    ensures r.Some? ==> r.value == g[p.row][p.col]
  {
    if p.row < |g| && p.col < |g[p.row]| then Some(g[p.row][p.col]) else None
  }
  /** Every row has the length of the first, as `Array2D::from_rows`
      demands. */
  predicate Rectangular<T>(g: seq<seq<T>>) {
    forall r :: 0 <= r < |g| ==> |g[r]| == |g[0]|
  }

  /** The number of columns (`row_len`). */
  function Width<T>(g: seq<seq<T>>): nat {
    if g == [] then 0 else |g[0]|
  }

  /** `as_columns` / `columns_iter`: column `c` lists row by row the
      cells at index `c`. */
  function Columns<T>(g: seq<seq<T>>): (cs: seq<seq<T>>)
    requires Rectangular(g)
    ensures |cs| == Width(g) && Rectangular(cs)
    ensures forall c, r :: 0 <= c < |cs| && 0 <= r < |g| ==> |cs[c]| == |g| && cs[c][r] == g[r][c]
  {
    seq(Width(g), c requires 0 <= c < Width(g) => seq(|g|, r requires 0 <= r < |g| => g[r][c]))
  }

  /** Transposing twice gives the grid back, unless its rows are empty
      (then the column count, and with it the row count, is lost). */
  lemma ColumnsTwice<T>(g: seq<seq<T>>)
    requires Rectangular(g) && Width(g) > 0
    ensures Columns(Columns(g)) == g
  {
    var cs := Columns(g);
    var back := Columns(cs);
    assert |back| == |g|;
    forall r | 0 <= r < |g|
      ensures back[r] == g[r]
    {
      assert |back[r]| == |cs| == |g[r]|;
    }
  }
}
