/**
 * Threshold resolution. Each of the three thresholds of an edge cropper is
 * given either as a fraction of an image dimension (a value of at most 1)
 * or as an absolute pixel count (a value above 1); resolution turns it into
 * a pixel count. Thresholds are reals, so the products are exact.
 */
module Configuration {
  import opened Wrappers

  /** The mode-exclude threshold and the low-effective-length thresholds
      by row and by column, raw or resolved. */
  datatype Thresholds = Thresholds(modeExclude: real, byRow: real, byColumn: real)

  /** One threshold: a fraction scales the dimension, a count is kept. */
  function Resolve(v: real, dimension: nat): (r: real)
    ensures 0.0 <= v <= 1.0 ==> 0.0 <= r <= dimension as real
    ensures 1.0 < v ==> r == v
  {
    if v <= 1.0 then ScaleWithin(dimension as real, v); dimension as real * v else v
  }

  /** A share of at most the whole of a non-negative size is at most that size. */
  lemma ScaleWithin(size: real, share: real)
    requires 0.0 <= size && share <= 1.0
    ensures 0.0 <= share ==> 0.0 <= size * share <= size
  {
    if 0.0 <= share {
      assert size * share <= size * 1.0;
    }
  }

  /** The resolved thresholds of an image with the given dimensions: the
      defaults when no filters are given, otherwise each filter resolved
      against columns (mode-exclude, by-row) or rows (by-column). */
  function ResolveThresholds(filters: Option<Thresholds>, rowCount: nat, columnCount: nat): (t: Thresholds)
    ensures filters.None? ==>
      0.0 <= t.modeExclude <= columnCount as real &&
      0.0 <= t.byRow <= columnCount as real &&
      0.0 <= t.byColumn <= rowCount as real
    ensures filters.Some? && 1.0 < filters.value.modeExclude ==> t.modeExclude == filters.value.modeExclude
    ensures filters.Some? && 1.0 < filters.value.byRow ==> t.byRow == filters.value.byRow
    ensures filters.Some? && 1.0 < filters.value.byColumn ==> t.byColumn == filters.value.byColumn
    ensures filters.Some? && filters.value.modeExclude <= 1.0 ==>
      t.modeExclude == columnCount as real * filters.value.modeExclude
    ensures filters.Some? && filters.value.byRow <= 1.0 ==>
      t.byRow == columnCount as real * filters.value.byRow
    ensures filters.Some? && filters.value.byColumn <= 1.0 ==>
      t.byColumn == rowCount as real * filters.value.byColumn
    ensures filters.None? ==>
      t == Thresholds(0.1 * columnCount as real, 0.05 * columnCount as real, 0.05 * rowCount as real)
  {
    match filters
    case None =>
      Thresholds(columnCount as real * 0.1, columnCount as real * 0.05, rowCount as real * 0.05)
    case Some(f) =>
      Thresholds(Resolve(f.modeExclude, columnCount), Resolve(f.byRow, columnCount), Resolve(f.byColumn, rowCount))
  }

  /** A fraction resolves to that share of its dimension. */
  lemma ResolveFraction(v: real, dimension: nat)
    requires v <= 1.0 && 0 < dimension
    ensures Resolve(v, dimension) / dimension as real == v
  {
  }

  /** The defaults are the fractions 0.1, 0.05 and 0.05 resolved against
      columns, columns and rows. */
  lemma DefaultsAreFractions(rowCount: nat, columnCount: nat)
    ensures ResolveThresholds(None, rowCount, columnCount)
         == ResolveThresholds(Some(Thresholds(0.1, 0.05, 0.05)), rowCount, columnCount)
  {
  }

  /** 0.2 against 100 columns is 20 pixels; 20 stays 20 pixels. */
  lemma ScalingLaw()
    ensures Resolve(0.2, 100) == 20.0
    ensures Resolve(20.0, 100) == 20.0
  {
  }
}
