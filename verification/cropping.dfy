/**
 * Cropping: the sub-grid of a colour image given by a box, with the
 * semantics of Python slicing for non-negative bounds (bounds past the end
 * are clamped, an empty range gives an empty result).
 */
module Cropping {
  import opened Grids
  import opened BorderDetection

  /** s[start:end] for non-negative start and end. */
  function Slice<T>(s: seq<T>, start: nat, end: nat): (r: seq<T>)
    ensures |r| <= |s|
    ensures forall k :: 0 <= k < |r| ==> start + k < |s| && r[k] == s[start + k]
    ensures start <= end <= |s| ==> |r| == end - start
    ensures start <= |s| < end ==> |r| == |s| - start
    ensures end <= start || |s| <= start ==> r == []
  {
    var lo := if start < |s| then start else |s|;
    var hi := if end < |s| then end else |s|;
    if lo <= hi then s[lo..hi] else []
  }

  /** im[rowStart:rowEnd, columnStart:columnEnd]: every cell of the result
      is the cell of im at the same offset from the box's corner. */
  function Crop<P>(im: seq<seq<P>>, box: Box): (r: seq<seq<P>>)
    ensures |r| == |Slice(im, box.rowStart, box.rowEnd)|
    ensures forall i :: 0 <= i < |r| ==>
      (box.rowStart + i < |im| && r[i] == Slice(im[box.rowStart + i], box.columnStart, box.columnEnd))
    ensures forall i, j :: 0 <= i < |r| && 0 <= j < |r[i]| ==>
      (box.rowStart + i < |im| && box.columnStart + j < |im[box.rowStart + i]| &&
       r[i][j] == im[box.rowStart + i][box.columnStart + j])
  {
    var rows := Slice(im, box.rowStart, box.rowEnd);
    seq(|rows|, i requires 0 <= i < |rows| => Slice(rows[i], box.columnStart, box.columnEnd))
  }

  /** A box inside a grid crops to a grid of the box's size. */
  lemma CropWithinImage<P>(im: seq<seq<P>>, rows: nat, columns: nat, box: Box)
    requires IsGrid(im, rows, columns)
    requires box.rowStart <= box.rowEnd <= rows && box.columnStart <= box.columnEnd <= columns
    ensures IsGrid(Crop(im, box), box.rowEnd - box.rowStart, box.columnEnd - box.columnStart)
  {
  }

  /** Cropping by the box of the whole grid gives the grid back. */
  lemma CropWholeImage<P>(im: seq<seq<P>>, rows: nat, columns: nat)
    requires IsGrid(im, rows, columns)
    ensures Crop(im, Box(0, rows, 0, columns)) == im
  {
    var r := Crop(im, Box(0, rows, 0, columns));
    forall i | 0 <= i < rows
      ensures r[i] == im[i]
    {
      assert |r[i]| == |im[i]|;
    }
  }
}
