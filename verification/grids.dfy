/**
 * Two-dimensional images as sequences of rows. A grayscale projection is a
 * grid of intensities; a colour image is a grid of opaque pixels.
 */
module Grids {

  /** g has exactly `rows` rows, each of exactly `columns` cells. */
  predicate IsGrid<T>(g: seq<seq<T>>, rows: nat, columns: nat)
  {
    |g| == rows && forall i :: 0 <= i < |g| ==> |g[i]| == columns
  }

  /** Column j of g, top to bottom (the numpy expression `g[:, j]`). */
  function Column<T>(g: seq<seq<T>>, j: nat): (c: seq<T>)
    requires forall i :: 0 <= i < |g| ==> j < |g[i]|
    ensures |c| == |g|
    ensures forall i :: 0 <= i < |g| ==> c[i] == g[i][j]
  {
    seq(|g|, i requires 0 <= i < |g| => g[i][j])
  }

  /** All columns of a grid with `columns` columns, left to right. */
  function Columns<T>(g: seq<seq<T>>, columns: nat): (cs: seq<seq<T>>)
    requires IsGrid(g, |g|, columns)
    ensures |cs| == columns
    ensures forall j :: 0 <= j < columns ==> cs[j] == Column(g, j)
  {
    seq(columns, j requires 0 <= j < columns => Column(g, j))
  }
}
