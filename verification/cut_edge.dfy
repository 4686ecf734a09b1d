/**
 * The edge cropper: an object holding a colour image, its grayscale
 * projection (spatially aligned with it), the resolved thresholds and the
 * cropped result once it has been computed.
 */
module CutEdge {
  import opened Wrappers
  import opened Grids
  import opened Modes
  import opened Configuration
  import opened BorderDetection
  import opened Cropping

  class EdgeCropper<P> {
    const im: seq<seq<P>>
    const imGray: seq<seq<int>>
    const rowCount: nat
    const columnCount: nat
    const modeExcludeThreshold: real
    const lowEffectiveLengthThresholdByRow: real
    const lowEffectiveLengthThresholdByColumn: real
    var result: Option<seq<seq<P>>>

    /** Both images have rowCount rows of columnCount pixels. */
    ghost predicate Valid()
    {
      IsGrid(im, rowCount, columnCount) && IsGrid(imGray, rowCount, columnCount) &&
      0 < rowCount && 0 < columnCount
    }

    /** The resolved thresholds as one value. */
    function ResolvedThresholds(): Thresholds
    {
      Thresholds(modeExcludeThreshold, lowEffectiveLengthThresholdByRow, lowEffectiveLengthThresholdByColumn)
    }

    /** Takes the loaded images; the dimensions come from the colour image
        and the thresholds are resolved from the filters, or defaulted. */
    constructor (im: seq<seq<P>>, imGray: seq<seq<int>>, filters: Option<Thresholds>)
      requires 0 < |im| && 0 < |im[0]|
      requires IsGrid(im, |im|, |im[0]|) && IsGrid(imGray, |im|, |im[0]|)
      ensures Valid()
      ensures this.im == im && this.imGray == imGray
      ensures rowCount == |im| && columnCount == |im[0]|
      ensures ResolvedThresholds() == ResolveThresholds(filters, rowCount, columnCount)
      ensures result == None
    {
      this.im := im;
      this.imGray := imGray;
      rowCount := |im|;
      columnCount := |im[0]|;
      result := None;
      var t := ResolveThresholds(filters, |im|, |im[0]|);
      modeExcludeThreshold := t.modeExclude;
      lowEffectiveLengthThresholdByRow := t.byRow;
      lowEffectiveLengthThresholdByColumn := t.byColumn;
    }

    /** The legal region of the grayscale image: the background vote over
        the row modes, then the first and last non-border row and column. */
    method GetLegalRegion() returns (region: Result<Box, DetectError>)
      requires Valid()
      ensures region == LegalRegion(imGray, rowCount, columnCount, modeExcludeThreshold,
                                    lowEffectiveLengthThresholdByRow, lowEffectiveLengthThresholdByColumn)
    {
      var rowModes := CollectRowModes(imGray, modeExcludeThreshold);
      if rowModes == [] {
        return Err(NoBackground);
      }
      var greatestGrayscale := Mode(rowModes).value;
      assert Background(imGray, modeExcludeThreshold) == Some(greatestGrayscale);
      var rowTest := RowTest(greatestGrayscale, columnCount, lowEffectiveLengthThresholdByRow);
      var columnTest := ColumnTest(greatestGrayscale, rowCount, lowEffectiveLengthThresholdByColumn);

      var rowStart := ScanForward(imGray, rowTest);
      if rowStart == None {
        return Err(NoLegalRows);
      }
      var rowEnd := ScanBackward(imGray, rowTest);
      assert LastNonBorder(imGray, rowTest).Some? by {
        assert !rowTest.IsBorder(imGray[rowStart.value]);
      }
      NonBorderSpanOfScans(imGray, rowTest, rowStart.value, rowEnd.value);

      var columns := Columns(imGray, columnCount);
      var columnStart := ScanForward(columns, columnTest);
      if columnStart == None {
        return Err(NoLegalColumns);
      }
      var columnEnd := ScanBackward(columns, columnTest);
      assert LastNonBorder(columns, columnTest).Some? by {
        assert !columnTest.IsBorder(columns[columnStart.value]);
      }
      NonBorderSpanOfScans(columns, columnTest, columnStart.value, columnEnd.value);

      region := Ok(Box(rowStart.value, rowEnd.value, columnStart.value, columnEnd.value));
    }

    /** Detects the legal region and, when there is one, keeps the crop of
        the colour image to it as the result. */
    method Call() returns (region: Result<Box, DetectError>)
      requires Valid()
      modifies this`result
      ensures region == LegalRegion(imGray, rowCount, columnCount, modeExcludeThreshold,
                                    lowEffectiveLengthThresholdByRow, lowEffectiveLengthThresholdByColumn)
      ensures region.Ok? ==> result == Some(Crop(im, region.value))
      ensures region.Err? ==> result == old(result)
    {
      region := GetLegalRegion();
      if region.Ok? {
        result := Some(Crop(im, region.value));
      }
    }
  }
}
