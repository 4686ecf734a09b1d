/**
 * Synthetic images: a uniform frame of thickness t around a uniform
 * interior block, and fully uniform images. The lemmas state what the
 * border detector makes of them.
 */
module Scenarios {
  import opened Wrappers
  import opened Grids
  import opened Modes
  import opened Configuration
  import opened BorderDetection
  import opened Cropping

  /** n samples: `inside` at the indices in [lo, hi), `outside` elsewhere. */
  function Band(n: nat, lo: nat, hi: nat, inside: int, outside: int): (line: seq<int>)
    ensures |line| == n
    ensures forall k :: 0 <= k < n ==> line[k] == if lo <= k < hi then inside else outside
  {
    seq(n, k => if lo <= k < hi then inside else outside)
  }

  /** n samples of v. */
  function Uniform(n: nat, v: int): (line: seq<int>)
    ensures |line| == n
    ensures forall k :: 0 <= k < n ==> line[k] == v
  {
    Band(n, 0, 0, v, v)
  }

  /** How many of the indices 0 .. n-1 lie in [lo, hi). */
  function Inside(n: nat, lo: nat, hi: nat): nat
  {
    if n <= lo then 0 else if n <= hi then n - lo else if lo <= hi then hi - lo else 0
  }

  /** How often each value occurs in a band. */
  lemma {:induction false} BandCount(n: nat, lo: nat, hi: nat, inside: int, outside: int, x: int)
    ensures multiset(Band(n, lo, hi, inside, outside))[x]
         == (if x == inside then Inside(n, lo, hi) else 0) + (if x == outside then n - Inside(n, lo, hi) else 0)
  {
    if n > 0 {
      BandCount(n - 1, lo, hi, inside, outside, x);
      assert Band(n, lo, hi, inside, outside)
          == Band(n - 1, lo, hi, inside, outside) + [if lo <= n - 1 < hi then inside else outside];
    }
  }

  /** How often each value occurs in a uniform line. */
  lemma UniformCount(n: nat, v: int, x: int)
    ensures multiset(Uniform(n, v))[x] == if x == v then n else 0
  {
    BandCount(n, 0, 0, v, v, x);
  }

  /** A non-empty uniform line has its value as mode, occurring everywhere. */
  lemma UniformMode(n: nat, v: int)
    requires 0 < n
    ensures Mode(Uniform(n, v)) == LineMode(v, n)
  {
    forall x | x != v
      ensures multiset(Uniform(n, v))[x] < multiset(Uniform(n, v))[v]
    {
      UniformCount(n, v, x);
      UniformCount(n, v, v);
    }
    UniformCount(n, v, v);
    ModeOfDominant(Uniform(n, v), v);
  }

  /** The mode of a line with an outer run of t samples on each side and
      an inner run in between: one of the two values, with its count. */
  lemma InnerRunMode(n: nat, t: nat, inner: int, outer: int)
    requires 2 * t < n && inner != outer
    ensures var m := Mode(Band(n, t, n - t, inner, outer));
      (m.value == inner && m.count == n - 2 * t) || (m.value == outer && m.count == 2 * t)
    ensures 2 * t < n - 2 * t ==> Mode(Band(n, t, n - t, inner, outer)) == LineMode(inner, n - 2 * t)
    ensures n - 2 * t < 2 * t ==> Mode(Band(n, t, n - t, inner, outer)) == LineMode(outer, 2 * t)
  {
    var line := Band(n, t, n - t, inner, outer);
    assert Inside(n, t, n - t) == n - 2 * t;
    forall x
      ensures multiset(line)[x] == (if x == inner then n - 2 * t else 0) + (if x == outer then 2 * t else 0)
    {
      BandCount(n, t, n - t, inner, outer, x);
    }
    var m := Mode(line);
    assert m.value in line;
    if 2 * t < n - 2 * t {
      ModeOfDominant(line, inner);
    } else if n - 2 * t < 2 * t {
      ModeOfDominant(line, outer);
    }
  }

  /** A row of a framed image: all frame, or frame around the interior. */
  function FramedRow(columns: nat, t: nat, frame: int, content: int, interior: bool): (row: seq<int>)
    requires t <= columns
    ensures |row| == columns
  {
    if interior then Band(columns, t, columns - t, content, frame) else Uniform(columns, frame)
  }

  /** g is a rows x columns image whose cells are the content inside a
      frame of thickness t and the frame value on the frame. */
  predicate IsFramed(g: seq<seq<int>>, rows: nat, columns: nat, t: nat, frame: int, content: int)
  {
    2 * t < rows && 2 * t < columns && IsGrid(g, rows, columns) &&
    forall i, j :: 0 <= i < rows && 0 <= j < columns ==>
      g[i][j] == if t <= i < rows - t && t <= j < columns - t then content else frame
  }

  /** A framed image of every size with room for the interior. */
  function FramedImage(rows: nat, columns: nat, t: nat, frame: int, content: int): (g: seq<seq<int>>)
    requires 2 * t < rows && 2 * t < columns
    ensures |g| == rows
    ensures forall i :: 0 <= i < rows ==> g[i] == FramedRow(columns, t, frame, content, t <= i < rows - t)
  {
    seq(rows, i => FramedRow(columns, t, frame, content, t <= i < rows - t))
  }

  /** FramedImage builds a framed image. */
  lemma FramedImageIsFramed(rows: nat, columns: nat, t: nat, frame: int, content: int)
    requires 2 * t < rows && 2 * t < columns
    ensures IsFramed(FramedImage(rows, columns, t, frame, content), rows, columns, t, frame, content)
  {
  }

  /** Each row of a framed image is a frame row or an interior row. */
  lemma FramedRowIs(g: seq<seq<int>>, rows: nat, columns: nat, t: nat, frame: int, content: int, i: nat)
    requires IsFramed(g, rows, columns, t, frame, content) && i < rows
    ensures g[i] == FramedRow(columns, t, frame, content, t <= i < rows - t)
  {
    var row := FramedRow(columns, t, frame, content, t <= i < rows - t);
    forall j | 0 <= j < columns
      ensures g[i][j] == row[j]
    {
    }
  }

  /** The columns of a framed image form the framed image with rows and
      columns exchanged. */
  lemma FramedColumns(g: seq<seq<int>>, rows: nat, columns: nat, t: nat, frame: int, content: int)
    requires IsFramed(g, rows, columns, t, frame, content)
    ensures IsFramed(Columns(g, columns), columns, rows, t, frame, content)
  {
    var cs := Columns(g, columns);
    forall j, i | 0 <= j < columns && 0 <= i < rows
      ensures cs[j][i] == if t <= j < columns - t && t <= i < rows - t then content else frame
    {
      assert cs[j][i] == g[i][j];
    }
  }

  /** g is a rows x columns image all of one value. */
  predicate IsUniform(g: seq<seq<int>>, rows: nat, columns: nat, v: int)
  {
    IsGrid(g, rows, columns) && forall i, j :: 0 <= i < rows && 0 <= j < columns ==> g[i][j] == v
  }

  /** Each row of a uniform image is a uniform line. */
  lemma UniformRowIs(g: seq<seq<int>>, rows: nat, columns: nat, v: int, i: nat)
    requires IsUniform(g, rows, columns, v) && i < rows
    ensures g[i] == Uniform(columns, v)
  {
    forall j | 0 <= j < columns
      ensures g[i][j] == Uniform(columns, v)[j]
    {
    }
  }

  /** The votes of n identical rows: the line's mode n times, or none. */
  function Votes(line: seq<int>, n: nat, exclude: real): seq<int>
  {
    if Represents(line, exclude) then Uniform(n, Mode(line).value) else []
  }

  /** How often each value occurs among the votes of n identical rows. */
  lemma VotesCount(line: seq<int>, n: nat, exclude: real, x: int)
    ensures multiset(Votes(line, n, exclude))[x]
         == if Represents(line, exclude) && x == Mode(line).value then n else 0
  {
    if Represents(line, exclude) {
      UniformCount(n, Mode(line).value, x);
    }
  }

  /** Row modes of identical rows: the line's mode once per row, or none. */
  lemma {:induction false} RowModesOfCopies(rows: seq<seq<int>>, line: seq<int>, exclude: real)
    requires forall i :: 0 <= i < |rows| ==> rows[i] == line
    ensures RowModes(rows, exclude) == Votes(line, |rows|, exclude)
  {
    if rows != [] {
      var init := rows[..|rows| - 1];
      RowModesOfCopies(init, line, exclude);
      assert init + [line] == rows;
      RowModesSnoc(init, line, exclude);
      assert Uniform(|rows|, Mode(line).value) == Uniform(|init|, Mode(line).value) + [Mode(line).value];
    }
  }

  /** The row modes of a framed image: those of the top frame rows, of the
      interior rows and of the bottom frame rows. */
  lemma FramedRowModes(g: seq<seq<int>>, rows: nat, columns: nat, t: nat, frame: int, content: int, exclude: real)
    requires IsFramed(g, rows, columns, t, frame, content)
    ensures RowModes(g, exclude)
         == Votes(FramedRow(columns, t, frame, content, false), t, exclude)
          + Votes(FramedRow(columns, t, frame, content, true), rows - 2 * t, exclude)
          + Votes(FramedRow(columns, t, frame, content, false), t, exclude)
  {
    var edgeRow, innerRow := FramedRow(columns, t, frame, content, false), FramedRow(columns, t, frame, content, true);
    var top, mid, bottom := g[..t], g[t..rows - t], g[rows - t..];
    assert g == top + mid + bottom;
    assert RowModes(top, exclude) == Votes(edgeRow, t, exclude) by {
      forall i | 0 <= i < t
        ensures top[i] == edgeRow
      {
        FramedRowIs(g, rows, columns, t, frame, content, i);
      }
      RowModesOfCopies(top, edgeRow, exclude);
    }
    assert RowModes(mid, exclude) == Votes(innerRow, rows - 2 * t, exclude) by {
      forall i | 0 <= i < rows - 2 * t
        ensures mid[i] == innerRow
      {
        FramedRowIs(g, rows, columns, t, frame, content, t + i);
      }
      RowModesOfCopies(mid, innerRow, exclude);
    }
    assert RowModes(bottom, exclude) == Votes(edgeRow, t, exclude) by {
      forall i | 0 <= i < t
        ensures bottom[i] == edgeRow
      {
        FramedRowIs(g, rows, columns, t, frame, content, rows - t + i);
      }
      RowModesOfCopies(bottom, edgeRow, exclude);
    }
    RowModesAppend(top + mid, bottom, exclude);
    RowModesAppend(top, mid, exclude);
  }

  /** The mode of a sequence made of an edge part, a middle part and the
      edge part again, when one value outnumbers each other value. */
  lemma EdgeMiddleEdgeMode(edge: seq<int>, middle: seq<int>, v: int)
    requires forall x :: x != v ==>
      2 * multiset(edge)[x] + multiset(middle)[x] < 2 * multiset(edge)[v] + multiset(middle)[v]
    ensures Mode(edge + middle + edge).value == v
  {
    var modes := edge + middle + edge;
    assert multiset(modes) == multiset(edge) + multiset(middle) + multiset(edge);
    ModeOfDominant(modes, v);
  }

  /** The background is the mode of the row modes when there are any. */
  lemma BackgroundIsModeOfRowModes(g: seq<seq<int>>, exclude: real, v: int)
    requires RowModes(g, exclude) != [] && Mode(RowModes(g, exclude)).value == v
    ensures Background(g, exclude) == Some(v)
  {
  }

  /** When frame rows outnumber interior rows, the background is the frame. */
  lemma FramedBackgroundIsFrame(g: seq<seq<int>>, rows: nat, columns: nat, t: nat, frame: int, content: int, exclude: real)
    requires IsFramed(g, rows, columns, t, frame, content) && frame != content
    requires rows < 4 * t && exclude < columns as real
    ensures Background(g, exclude) == Some(frame)
  {
    var edgeRow := FramedRow(columns, t, frame, content, false);
    var innerRow := FramedRow(columns, t, frame, content, true);
    UniformMode(columns, frame);
    var edge := Votes(edgeRow, t, exclude);
    var middle := Votes(innerRow, rows - 2 * t, exclude);
    forall x | x != frame
      ensures 2 * multiset(edge)[x] + multiset(middle)[x] < 2 * multiset(edge)[frame] + multiset(middle)[frame]
    {
      VotesCount(edgeRow, t, exclude, x);
      VotesCount(edgeRow, t, exclude, frame);
      VotesCount(innerRow, rows - 2 * t, exclude, x);
    }
    EdgeMiddleEdgeMode(edge, middle, frame);
    assert (edge + middle + edge)[0] == frame;
    FramedRowModes(g, rows, columns, t, frame, content, exclude);
    BackgroundIsModeOfRowModes(g, exclude, frame);
  }

  /** When the frame outnumbers the content within each interior row, and
      every row votes, every row votes for the frame. */
  lemma NarrowFramedBackgroundIsFrame(g: seq<seq<int>>, rows: nat, columns: nat, t: nat, frame: int, content: int,
                                      exclude: real)
    requires IsFramed(g, rows, columns, t, frame, content) && frame != content
    requires columns < 4 * t && exclude < (2 * t) as real
    ensures Background(g, exclude) == Some(frame)
  {
    var edgeRow := FramedRow(columns, t, frame, content, false);
    var innerRow := FramedRow(columns, t, frame, content, true);
    UniformMode(columns, frame);
    InnerRunMode(columns, t, content, frame);
    var edge := Votes(edgeRow, t, exclude);
    var middle := Votes(innerRow, rows - 2 * t, exclude);
    forall x | x != frame
      ensures 2 * multiset(edge)[x] + multiset(middle)[x] < 2 * multiset(edge)[frame] + multiset(middle)[frame]
    {
      VotesCount(edgeRow, t, exclude, x);
      VotesCount(edgeRow, t, exclude, frame);
      VotesCount(innerRow, rows - 2 * t, exclude, x);
      VotesCount(innerRow, rows - 2 * t, exclude, frame);
    }
    EdgeMiddleEdgeMode(edge, middle, frame);
    assert middle[0] == frame;
    assert (edge + middle + edge)[|edge|] == frame;
    FramedRowModes(g, rows, columns, t, frame, content, exclude);
    BackgroundIsModeOfRowModes(g, exclude, frame);
  }

  /** When interior rows outnumber frame rows and the interior dominates its
      rows, the background is the content. */
  lemma FramedBackgroundIsContent(g: seq<seq<int>>, rows: nat, columns: nat, t: nat, frame: int, content: int, exclude: real)
    requires IsFramed(g, rows, columns, t, frame, content) && frame != content
    requires 4 * t < rows && 4 * t < columns && exclude < (columns - 2 * t) as real
    ensures Background(g, exclude) == Some(content)
  {
    var edgeRow := FramedRow(columns, t, frame, content, false);
    var innerRow := FramedRow(columns, t, frame, content, true);
    InnerRunMode(columns, t, content, frame);
    var edge := Votes(edgeRow, t, exclude);
    var middle := Votes(innerRow, rows - 2 * t, exclude);
    forall x | x != content
      ensures 2 * multiset(edge)[x] + multiset(middle)[x] < 2 * multiset(edge)[content] + multiset(middle)[content]
    {
      VotesCount(edgeRow, t, exclude, x);
      VotesCount(edgeRow, t, exclude, content);
      VotesCount(innerRow, rows - 2 * t, exclude, x);
      VotesCount(innerRow, rows - 2 * t, exclude, content);
    }
    EdgeMiddleEdgeMode(edge, middle, content);
    assert middle[0] == content;
    assert (edge + middle + edge)[|edge|] == content;
    FramedRowModes(g, rows, columns, t, frame, content, exclude);
    BackgroundIsModeOfRowModes(g, exclude, content);
  }

  /** Under the frame as background, a frame line is a border line and a
      line crossing the interior is not, for a positive threshold no larger
      than the interior run. */
  lemma FramedLinesUnderFrame(n: nat, t: nat, frame: int, content: int, threshold: real)
    requires 2 * t < n && frame != content && 0.0 < threshold <= (n - 2 * t) as real
    ensures BorderTest(frame, n, threshold).IsBorder(FramedRow(n, t, frame, content, false))
    ensures !BorderTest(frame, n, threshold).IsBorder(FramedRow(n, t, frame, content, true))
  {
    UniformMode(n, frame);
    InnerRunMode(n, t, content, frame);
  }

  /** Under the content as background, a frame line is not a border line. */
  lemma FrameLineUnderContent(n: nat, frame: int, content: int, threshold: real)
    requires 0 < n && frame != content
    ensures !BorderTest(content, n, threshold).IsBorder(Uniform(n, frame))
  {
    UniformMode(n, frame);
  }

  /** Under the frame as background the border rows of a framed image are
      exactly its frame rows. */
  lemma FramedRowsUnderFrame(g: seq<seq<int>>, rows: nat, columns: nat, t: nat, frame: int, content: int, byRow: real)
    requires IsFramed(g, rows, columns, t, frame, content) && frame != content
    requires 0.0 < byRow <= (columns - 2 * t) as real
    ensures forall j :: 0 <= j < rows ==> (RowTest(frame, columns, byRow).IsBorder(g[j]) <==> !(t <= j < rows - t))
  {
    FramedLinesUnderFrame(columns, t, frame, content, byRow);
    forall j | 0 <= j < rows
      ensures RowTest(frame, columns, byRow).IsBorder(g[j]) <==> !(t <= j < rows - t)
    {
      FramedRowIs(g, rows, columns, t, frame, content, j);
    }
  }

  /** Under the frame as background the non-border rows of a framed image
      are the interior rows. */
  lemma FramedRowSpan(g: seq<seq<int>>, rows: nat, columns: nat, t: nat, frame: int, content: int, byRow: real)
    requires IsFramed(g, rows, columns, t, frame, content) && frame != content
    requires 0.0 < byRow <= (columns - 2 * t) as real
    ensures NonBorderSpan(g, RowTest(frame, columns, byRow)) == Some(Span(t, rows - t))
  {
    FramedRowsUnderFrame(g, rows, columns, t, frame, content, byRow);
    NonBorderSpanIs(g, RowTest(frame, columns, byRow), t, rows - t);
  }

  /** Under the frame as background the non-border columns of a framed
      image are the interior columns. */
  lemma FramedColumnSpan(g: seq<seq<int>>, rows: nat, columns: nat, t: nat, frame: int, content: int, byColumn: real)
    requires IsFramed(g, rows, columns, t, frame, content) && frame != content
    requires 0.0 < byColumn <= (rows - 2 * t) as real
    ensures NonBorderSpan(Columns(g, columns), ColumnTest(frame, rows, byColumn)) == Some(Span(t, columns - t))
  {
    FramedColumns(g, rows, columns, t, frame, content);
    FramedRowSpan(Columns(g, columns), columns, rows, t, frame, content, byColumn);
  }

  /** Under the content as background every row of a framed image lies in
      the span of non-border rows. */
  lemma WholeRowSpan(g: seq<seq<int>>, rows: nat, columns: nat, t: nat, frame: int, content: int, byRow: real)
    requires IsFramed(g, rows, columns, t, frame, content) && frame != content && 0 < t
    ensures NonBorderSpan(g, RowTest(content, columns, byRow)) == Some(Span(0, rows))
  {
    FrameLineUnderContent(columns, frame, content, byRow);
    FramedRowIs(g, rows, columns, t, frame, content, 0);
    FramedRowIs(g, rows, columns, t, frame, content, rows - 1);
    NonBorderSpanIs(g, RowTest(content, columns, byRow), 0, rows);
  }

  /** Under the content as background every column of a framed image lies
      in the span of non-border columns. */
  lemma WholeColumnSpan(g: seq<seq<int>>, rows: nat, columns: nat, t: nat, frame: int, content: int, byColumn: real)
    requires IsFramed(g, rows, columns, t, frame, content) && frame != content && 0 < t
    ensures NonBorderSpan(Columns(g, columns), ColumnTest(content, rows, byColumn)) == Some(Span(0, columns))
  {
    FramedColumns(g, rows, columns, t, frame, content);
    WholeRowSpan(Columns(g, columns), columns, rows, t, frame, content, byColumn);
  }

  /** Frame rows outnumbering interior rows: the legal region is exactly
      the interior block. */
  lemma FrameDominatesGivesInterior(g: seq<seq<int>>, rows: nat, columns: nat, t: nat, frame: int, content: int,
                                    exclude: real, byRow: real, byColumn: real)
    requires IsFramed(g, rows, columns, t, frame, content) && frame != content && rows < 4 * t
    requires exclude < columns as real
    requires 0.0 < byRow <= (columns - 2 * t) as real
    requires 0.0 < byColumn <= (rows - 2 * t) as real
    ensures var region := LegalRegion(g, rows, columns, exclude, byRow, byColumn);
      region.Ok? && region.value.rowStart == t && region.value.rowEnd == rows - t &&
      region.value.columnStart == t && region.value.columnEnd == columns - t
  {
    FramedBackgroundIsFrame(g, rows, columns, t, frame, content, exclude);
    FramedRowSpan(g, rows, columns, t, frame, content, byRow);
    FramedColumnSpan(g, rows, columns, t, frame, content, byColumn);
    LegalRegionOfSpans(g, rows, columns, exclude, byRow, byColumn, frame, Span(t, rows - t), Span(t, columns - t));
  }

  /** The frame outnumbering the content within each interior row: the
      legal region is exactly the interior block, however many interior
      rows there are. */
  lemma NarrowFrameGivesInterior(g: seq<seq<int>>, rows: nat, columns: nat, t: nat, frame: int, content: int,
                                 exclude: real, byRow: real, byColumn: real)
    requires IsFramed(g, rows, columns, t, frame, content) && frame != content && columns < 4 * t
    requires exclude < (2 * t) as real
    requires 0.0 < byRow <= (columns - 2 * t) as real
    requires 0.0 < byColumn <= (rows - 2 * t) as real
    ensures var region := LegalRegion(g, rows, columns, exclude, byRow, byColumn);
      region.Ok? && region.value.rowStart == t && region.value.rowEnd == rows - t &&
      region.value.columnStart == t && region.value.columnEnd == columns - t
  {
    NarrowFramedBackgroundIsFrame(g, rows, columns, t, frame, content, exclude);
    FramedRowSpan(g, rows, columns, t, frame, content, byRow);
    FramedColumnSpan(g, rows, columns, t, frame, content, byColumn);
    LegalRegionOfSpans(g, rows, columns, exclude, byRow, byColumn, frame, Span(t, rows - t), Span(t, columns - t));
  }

  /** Interior rows outnumbering frame rows, and the content dominating the
      interior rows: the background is the content, the frame rows and
      columns are not border lines, and the legal region is the whole image. */
  lemma InteriorDominatesKeepsWholeImage(g: seq<seq<int>>, rows: nat, columns: nat, t: nat, frame: int, content: int,
                                         exclude: real, byRow: real, byColumn: real)
    requires IsFramed(g, rows, columns, t, frame, content) && frame != content
    requires 0 < t && 4 * t < rows && 4 * t < columns
    requires exclude < (columns - 2 * t) as real
    ensures LegalRegion(g, rows, columns, exclude, byRow, byColumn) == Ok(Box(0, rows, 0, columns))
  {
    FramedBackgroundIsContent(g, rows, columns, t, frame, content, exclude);
    WholeRowSpan(g, rows, columns, t, frame, content, byRow);
    WholeColumnSpan(g, rows, columns, t, frame, content, byColumn);
    LegalRegionOfSpans(g, rows, columns, exclude, byRow, byColumn, content, Span(0, rows), Span(0, columns));
  }

  /** With the default thresholds a frame thicker than a quarter of the
      height, leaving at least a twentieth of each dimension to the
      interior, is found exactly. */
  lemma DefaultThresholdsFindInterior(g: seq<seq<int>>, rows: nat, columns: nat, t: nat, frame: int, content: int)
    requires IsFramed(g, rows, columns, t, frame, content) && frame != content && rows < 4 * t
    requires 40 * t <= 19 * columns && 40 * t <= 19 * rows
    ensures var d := ResolveThresholds(None, rows, columns);
      var region := LegalRegion(g, rows, columns, d.modeExclude, d.byRow, d.byColumn);
      region.Ok? && region.value.rowStart == t && region.value.rowEnd == rows - t &&
      region.value.columnStart == t && region.value.columnEnd == columns - t
  {
    var d := ResolveThresholds(None, rows, columns);
    FrameDominatesGivesInterior(g, rows, columns, t, frame, content, d.modeExclude, d.byRow, d.byColumn);
  }

  /** With the default thresholds a frame thinner than a quarter of each
      dimension is kept: the region is the whole image and the crop is the
      image itself. */
  lemma DefaultThresholdsKeepWholeImage(g: seq<seq<int>>, rows: nat, columns: nat, t: nat, frame: int, content: int)
    requires IsFramed(g, rows, columns, t, frame, content) && frame != content
    requires 0 < t && 4 * t < rows && 4 * t < columns
    ensures var d := ResolveThresholds(None, rows, columns);
      LegalRegion(g, rows, columns, d.modeExclude, d.byRow, d.byColumn) == Ok(Box(0, rows, 0, columns))
    ensures Crop(g, Box(0, rows, 0, columns)) == g
  {
    var d := ResolveThresholds(None, rows, columns);
    InteriorDominatesKeepsWholeImage(g, rows, columns, t, frame, content, d.modeExclude, d.byRow, d.byColumn);
    CropWholeImage(g, rows, columns);
  }

  /** A 10 x 10 image with a frame of thickness 2 at 255 around a block of
      0, under the default thresholds: six interior rows outvote four frame
      rows, so the background is 0 and nothing is cropped. */
  lemma TenByTenFrameIsKept()
    ensures var d := ResolveThresholds(None, 10, 10);
      LegalRegion(FramedImage(10, 10, 2, 255, 0), 10, 10, d.modeExclude, d.byRow, d.byColumn)
      == Ok(Box(0, 10, 0, 10))
  {
    FramedImageIsFramed(10, 10, 2, 255, 0);
    DefaultThresholdsKeepWholeImage(FramedImage(10, 10, 2, 255, 0), 10, 10, 2, 255, 0);
  }

  /** A 9 x 5 image with a frame of thickness 2 at 1 around a 5 x 1 block
      of 0, under the default thresholds: five interior rows outnumber four
      frame rows, but each of them holds four frame pixels against one
      content pixel, so every row votes 1 and the interior is found. */
  lemma NineByFiveFrameIsCropped()
    ensures var d := ResolveThresholds(None, 9, 5);
      LegalRegion(FramedImage(9, 5, 2, 1, 0), 9, 5, d.modeExclude, d.byRow, d.byColumn)
      == Ok(Box(2, 7, 2, 3))
  {
    FramedImageIsFramed(9, 5, 2, 1, 0);
    var d := ResolveThresholds(None, 9, 5);
    NarrowFrameGivesInterior(FramedImage(9, 5, 2, 1, 0), 9, 5, 2, 1, 0, d.modeExclude, d.byRow, d.byColumn);
  }

  /** In a uniform image with enough columns to vote, every row is a border
      row: detection fails on the rows. */
  lemma UniformImageHasNoLegalRows(g: seq<seq<int>>, rows: nat, columns: nat, v: int,
                                   exclude: real, byRow: real, byColumn: real)
    requires IsUniform(g, rows, columns, v) && 0 < rows && 0 < columns
    requires exclude < columns as real && 0.0 < byRow
    ensures LegalRegion(g, rows, columns, exclude, byRow, byColumn) == Err(NoLegalRows)
  {
    var line := Uniform(columns, v);
    UniformMode(columns, v);
    forall i | 0 <= i < rows
      ensures g[i] == line
    {
      UniformRowIs(g, rows, columns, v, i);
    }
    RowModesOfCopies(g, line, exclude);
    UniformMode(rows, v);
    BackgroundIsModeOfRowModes(g, exclude, v);
    assert forall i :: 0 <= i < rows ==> RowTest(v, columns, byRow).IsBorder(g[i]);
  }

  /** Under the default thresholds a uniform image fails on the rows, and
      the columns are never examined. */
  lemma UniformImageFailsOnRowsByDefault(g: seq<seq<int>>, rows: nat, columns: nat, v: int)
    requires IsUniform(g, rows, columns, v) && 0 < rows && 0 < columns
    ensures var d := ResolveThresholds(None, rows, columns);
      LegalRegion(g, rows, columns, d.modeExclude, d.byRow, d.byColumn) == Err(NoLegalRows)
  {
    var d := ResolveThresholds(None, rows, columns);
    UniformImageHasNoLegalRows(g, rows, columns, v, d.modeExclude, d.byRow, d.byColumn);
  }

  /** In a uniform image whose rows vote, a by-row threshold of 0 or less
      makes no row a border row, so the row scan passes; a positive by-column
      threshold then makes every column a border column, and detection fails
      on the columns. */
  lemma UniformImageWithoutRowSlackHasNoLegalColumns(g: seq<seq<int>>, rows: nat, columns: nat, v: int,
                                                     exclude: real, byRow: real, byColumn: real)
    requires IsUniform(g, rows, columns, v) && 0 < rows && 0 < columns
    requires exclude < columns as real && byRow <= 0.0 && 0.0 < byColumn
    ensures LegalRegion(g, rows, columns, exclude, byRow, byColumn) == Err(NoLegalColumns)
  {
    var line := Uniform(columns, v);
    UniformMode(columns, v);
    forall i | 0 <= i < rows
      ensures g[i] == line
    {
      UniformRowIs(g, rows, columns, v, i);
    }
    RowModesOfCopies(g, line, exclude);
    UniformMode(rows, v);
    BackgroundIsModeOfRowModes(g, exclude, v);
    var rowTest := RowTest(v, columns, byRow);
    assert !rowTest.IsBorder(g[0]);
    FirstNonBorderIs(g, rowTest, 0);
    var cs := Columns(g, columns);
    forall j | 0 <= j < columns
      ensures cs[j] == Uniform(rows, v)
    {
      forall i | 0 <= i < rows
        ensures cs[j][i] == Uniform(rows, v)[i]
      {
        UniformRowIs(g, rows, columns, v, i);
      }
    }
    assert forall j :: 0 <= j < columns ==> ColumnTest(v, rows, byColumn).IsBorder(cs[j]);
  }

  /** The filters (0.1, 0, 0.05): the by-row fraction 0 resolves to 0, and
      every uniform image fails on the columns instead of the rows. */
  lemma UniformImageFailsOnColumnsWithZeroRowThreshold(g: seq<seq<int>>, rows: nat, columns: nat, v: int)
    requires IsUniform(g, rows, columns, v) && 0 < rows && 0 < columns
    ensures var d := ResolveThresholds(Some(Thresholds(0.1, 0.0, 0.05)), rows, columns);
      LegalRegion(g, rows, columns, d.modeExclude, d.byRow, d.byColumn) == Err(NoLegalColumns)
  {
    var d := ResolveThresholds(Some(Thresholds(0.1, 0.0, 0.05)), rows, columns);
    UniformImageWithoutRowSlackHasNoLegalColumns(g, rows, columns, v, d.modeExclude, d.byRow, d.byColumn);
  }

  /** In a uniform image whose rows are too short to vote, there is no
      background. */
  lemma UniformImageHasNoBackground(g: seq<seq<int>>, rows: nat, columns: nat, v: int,
                                    exclude: real, byRow: real, byColumn: real)
    requires IsUniform(g, rows, columns, v) && 0 < columns && columns as real <= exclude
    ensures LegalRegion(g, rows, columns, exclude, byRow, byColumn) == Err(NoBackground)
  {
    UniformMode(columns, v);
    forall i | 0 <= i < rows
      ensures !Represents(g[i], exclude)
    {
      UniformRowIs(g, rows, columns, v, i);
    }
  }

  /** The interior block of a framed image is a uniform image, so by
      UniformImageFailsOnRowsByDefault detecting again on the crop that
      DefaultThresholdsFindInterior produces finds no legal row: cropping
      is not idempotent. */
  lemma CropToInteriorIsUniform(g: seq<seq<int>>, rows: nat, columns: nat, t: nat, frame: int, content: int)
    requires IsFramed(g, rows, columns, t, frame, content)
    ensures IsUniform(Crop(g, Box(t, rows - t, t, columns - t)), rows - 2 * t, columns - 2 * t, content)
  {
    CropWithinImage(g, rows, columns, Box(t, rows - t, t, columns - t));
  }
}
