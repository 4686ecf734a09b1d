/**
 * Border detection over a grayscale grid: the background intensity is the
 * mode of the modes of the representative rows, and the legal region is the
 * half-open box between the first and last non-border row and column.
 */
module BorderDetection {
  import opened Wrappers
  import opened Grids
  import opened Modes

  datatype Box = Box(rowStart: nat, rowEnd: nat, columnStart: nat, columnEnd: nat)

  datatype DetectError =
    | NoBackground     // no row is uniform enough to vote for a background
    | NoLegalRows      // every row is a border row
    | NoLegalColumns   // every column is a border column

  /** A row takes part in the background vote when its mode occurs more
      often than the exclude threshold. */
  predicate Represents(row: seq<int>, exclude: real)
  {
    Mode(row).count as real > exclude
  }

  /** A row takes part in the vote exactly when some intensity occurs in
      it more often than the exclude threshold. */
  lemma RepresentsExactly(row: seq<int>, exclude: real)
    ensures Represents(row, exclude) <==> exists v :: multiset(row)[v] as real > exclude
  {
    var m := Mode(row);
    assert multiset(row)[m.value] == m.count;
  }

  /** The modes of the representative rows, in row order. */
  function RowModes(rows: seq<seq<int>>, exclude: real): (modes: seq<int>)
    ensures |modes| <= |rows|
  {
    if rows == [] then []
    else
      var last := rows[|rows| - 1];
      var earlier := RowModes(rows[..|rows| - 1], exclude);
      if Mode(last).count as real <= exclude then earlier else earlier + [Mode(last).value]
  }

  /** The row modes are exactly the modes of the representative rows. */
  lemma {:induction false} RowModesMembers(rows: seq<seq<int>>, exclude: real)
    ensures forall v :: v in RowModes(rows, exclude) ==>
      exists i :: 0 <= i < |rows| && Represents(rows[i], exclude) && Mode(rows[i]).value == v
    ensures forall i :: 0 <= i < |rows| && Represents(rows[i], exclude) ==> Mode(rows[i]).value in RowModes(rows, exclude)
  {
    if rows != [] {
      var init := rows[..|rows| - 1];
      RowModesMembers(init, exclude);
      assert forall i :: 0 <= i < |init| ==> rows[i] == init[i];
    }
  }

  /** The background intensity: the mode of the row modes, if any row
      takes part in the vote. */
  function Background(rows: seq<seq<int>>, exclude: real): (b: Option<int>)
    ensures b.None? <==> forall i :: 0 <= i < |rows| ==> !Represents(rows[i], exclude)
    ensures b.Some? ==> exists i :: 0 <= i < |rows| && Represents(rows[i], exclude) && Mode(rows[i]).value == b.value
    ensures b.Some? ==> forall v :: multiset(RowModes(rows, exclude))[v] <= multiset(RowModes(rows, exclude))[b.value]
    ensures b.Some? ==> forall v ::
      multiset(RowModes(rows, exclude))[v] == multiset(RowModes(rows, exclude))[b.value] ==> b.value <= v
  {
    var modes := RowModes(rows, exclude);
    RowModesMembers(rows, exclude);
    if modes == [] then None
    else
      assert modes[0] in modes;
      Some(Mode(modes).value)
  }

  /** The border test of one axis: a line is a border line when its mode is
      the background and occurs more than `length - threshold` times. */
  datatype BorderTest = BorderTest(background: int, length: nat, threshold: real)
  {
    predicate IsBorder(line: seq<int>)
    {
      var m := Mode(line);
      m.value == background && m.count as real > length as real - threshold
    }
  }

  /** A non-empty line is a border line exactly when the background is the
      smallest of its most frequent intensities and occurs more than
      `length - threshold` times. */
  lemma IsBorderExactly(test: BorderTest, line: seq<int>)
    requires line != []
    ensures test.IsBorder(line) <==>
      multiset(line)[test.background] as real > test.length as real - test.threshold &&
      (forall v :: multiset(line)[v] <= multiset(line)[test.background]) &&
      (forall v :: multiset(line)[v] == multiset(line)[test.background] ==> test.background <= v)
  {
    ModeExactly(line, test.background);
  }

  /** The index of the first line that is not a border line. */
  function FirstNonBorder(lines: seq<seq<int>>, test: BorderTest): (r: Option<nat>)
    ensures r.None? <==> forall j :: 0 <= j < |lines| ==> test.IsBorder(lines[j])
    ensures r.Some? ==> r.value < |lines| && !test.IsBorder(lines[r.value])
    ensures r.Some? ==> forall j :: 0 <= j < r.value ==> test.IsBorder(lines[j])
  {
    if lines == [] then None
    else if !test.IsBorder(lines[0]) then Some(0)
    else
      var rest := lines[1..];
      assert forall j :: 1 <= j < |lines| ==> lines[j] == rest[j - 1];
      match FirstNonBorder(rest, test)
      case None => None
      case Some(k) => Some(k + 1)
  }

  /** The index of the last line that is not a border line. */
  function LastNonBorder(lines: seq<seq<int>>, test: BorderTest): (r: Option<nat>)
    ensures r.None? <==> forall j :: 0 <= j < |lines| ==> test.IsBorder(lines[j])
    ensures r.Some? ==> r.value < |lines| && !test.IsBorder(lines[r.value])
    ensures r.Some? ==> forall j :: r.value < j < |lines| ==> test.IsBorder(lines[j])
  {
    if lines == [] then None
    else if !test.IsBorder(lines[|lines| - 1]) then Some(|lines| - 1)
    else
      var init := lines[..|lines| - 1];
      assert forall j :: 0 <= j < |init| ==> lines[j] == init[j];
      LastNonBorder(init, test)
  }

  /** A half-open range [start, end) of line indices. */
  datatype Span = Span(start: nat, end: nat)

  /** [start, end) is the tight span of the non-border lines: every line
      before start and from end on is a border line, and the lines at start
      and end - 1 are not. */
  ghost predicate IsTightSpan(lines: seq<seq<int>>, test: BorderTest, start: nat, end: nat)
  {
    start < end <= |lines| &&
    !test.IsBorder(lines[start]) && !test.IsBorder(lines[end - 1]) &&
    (forall j :: 0 <= j < start ==> test.IsBorder(lines[j])) &&
    (forall j :: end <= j < |lines| ==> test.IsBorder(lines[j]))
  }

  /** The span of the non-border lines, from the first to one past the
      last, if there is any non-border line. */
  function NonBorderSpan(lines: seq<seq<int>>, test: BorderTest): (span: Option<Span>)
    ensures span.None? <==> forall j :: 0 <= j < |lines| ==> test.IsBorder(lines[j])
    ensures span.Some? ==> IsTightSpan(lines, test, span.value.start, span.value.end)
  {
    match FirstNonBorder(lines, test)
    case None => None
    case Some(start) => Some(Span(start, LastNonBorder(lines, test).value + 1))
  }

  /** The span found by a forward and a backward scan. */
  lemma NonBorderSpanOfScans(lines: seq<seq<int>>, test: BorderTest, start: nat, end: nat)
    requires FirstNonBorder(lines, test) == Some(start)
    requires LastNonBorder(lines, test) == Some(end - 1) && 0 < end
    ensures NonBorderSpan(lines, test) == Some(Span(start, end))
  {
  }

  /** A tight span is the span NonBorderSpan finds: the converse of its
      contract. */
  lemma NonBorderSpanIs(lines: seq<seq<int>>, test: BorderTest, start: nat, end: nat)
    requires IsTightSpan(lines, test, start, end)
    ensures NonBorderSpan(lines, test) == Some(Span(start, end))
  {
    FirstNonBorderIs(lines, test, start);
    LastNonBorderIs(lines, test, end - 1);
    NonBorderSpanOfScans(lines, test, start, end);
  }

  /** The border test of rows: lines of columnCount pixels, by-row threshold. */
  function RowTest(background: int, columnCount: nat, byRow: real): BorderTest
  {
    BorderTest(background, columnCount, byRow)
  }

  /** The border test of columns: lines of rowCount pixels, by-column threshold. */
  function ColumnTest(background: int, rowCount: nat, byColumn: real): BorderTest
  {
    BorderTest(background, rowCount, byColumn)
  }

  /** The legal region of a grayscale grid, or why there is none. The
      background is voted by the rows only and serves both axes. */
  function LegalRegion(g: seq<seq<int>>, rowCount: nat, columnCount: nat,
                       exclude: real, byRow: real, byColumn: real): (region: Result<Box, DetectError>)
    requires IsGrid(g, rowCount, columnCount)
    ensures region.Ok? ==>
      region.value.rowStart < region.value.rowEnd <= rowCount &&
      region.value.columnStart < region.value.columnEnd <= columnCount
  {
    match Background(g, exclude)
    case None => Err(NoBackground)
    case Some(background) =>
      match NonBorderSpan(g, RowTest(background, columnCount, byRow))
      case None => Err(NoLegalRows)
      case Some(rowSpan) =>
        match NonBorderSpan(Columns(g, columnCount), ColumnTest(background, rowCount, byColumn))
        case None => Err(NoLegalColumns)
        case Some(columnSpan) => Ok(Box(rowSpan.start, rowSpan.end, columnSpan.start, columnSpan.end))
  }

  /** LegalRegion assembled from a background and the spans of both axes. */
  lemma LegalRegionOfSpans(g: seq<seq<int>>, rowCount: nat, columnCount: nat,
                           exclude: real, byRow: real, byColumn: real,
                           background: int, rowSpan: Span, columnSpan: Span)
    requires IsGrid(g, rowCount, columnCount)
    requires Background(g, exclude) == Some(background)
    requires NonBorderSpan(g, RowTest(background, columnCount, byRow)) == Some(rowSpan)
    requires NonBorderSpan(Columns(g, columnCount), ColumnTest(background, rowCount, byColumn)) == Some(columnSpan)
    ensures LegalRegion(g, rowCount, columnCount, exclude, byRow, byColumn)
         == Ok(Box(rowSpan.start, rowSpan.end, columnSpan.start, columnSpan.end))
  {
  }

  /** What LegalRegion promises: each error exactly when its condition
      holds, and otherwise the tight spans of the non-border rows and
      columns under the background of the row vote. */
  lemma LegalRegionSpec(g: seq<seq<int>>, rowCount: nat, columnCount: nat,
                        exclude: real, byRow: real, byColumn: real, region: Result<Box, DetectError>)
    requires IsGrid(g, rowCount, columnCount)
    requires region == LegalRegion(g, rowCount, columnCount, exclude, byRow, byColumn)
    ensures region == Err(NoBackground) <==> Background(g, exclude).None?
    ensures Background(g, exclude).Some? ==>
      var rowTest := RowTest(Background(g, exclude).value, columnCount, byRow);
      (region == Err(NoLegalRows) <==> forall i :: 0 <= i < rowCount ==> rowTest.IsBorder(g[i]))
    ensures region == Err(NoLegalColumns) <==>
      Background(g, exclude).Some? &&
      var rowTest := RowTest(Background(g, exclude).value, columnCount, byRow);
      var columnTest := ColumnTest(Background(g, exclude).value, rowCount, byColumn);
      (exists i :: 0 <= i < rowCount && !rowTest.IsBorder(g[i])) &&
      (forall j :: 0 <= j < columnCount ==> columnTest.IsBorder(Column(g, j)))
    ensures region.Ok? ==>
      Background(g, exclude).Some? &&
      var rowTest := RowTest(Background(g, exclude).value, columnCount, byRow);
      var columnTest := ColumnTest(Background(g, exclude).value, rowCount, byColumn);
      IsTightSpan(g, rowTest, region.value.rowStart, region.value.rowEnd) &&
      IsTightSpan(Columns(g, columnCount), columnTest, region.value.columnStart, region.value.columnEnd)
  {
  }

  /** Builds the row modes row by row, appending the mode of each
      representative row. */
  method CollectRowModes(rows: seq<seq<int>>, exclude: real) returns (rowModes: seq<int>)
    ensures rowModes == RowModes(rows, exclude)
  {
    rowModes := [];
    var row := 0;
    while row < |rows|
      invariant 0 <= row <= |rows|
      invariant rowModes == RowModes(rows[..row], exclude)
    {
      var m := Mode(rows[row]);
      RowModesOfPrefix(rows, row, exclude);
      if m.count as real <= exclude {
      } else {
        rowModes := rowModes + [m.value];
      }
      row := row + 1;
    }
    assert rows[..|rows|] == rows;
  }

  /** Scans from the first line on and stops at the first non-border line. */
  method ScanForward(lines: seq<seq<int>>, test: BorderTest) returns (start: Option<nat>)
    ensures start == FirstNonBorder(lines, test)
  {
    start := None;
    var i := 0;
    while i < |lines|
      invariant 0 <= i <= |lines|
      invariant forall j :: 0 <= j < i ==> test.IsBorder(lines[j])
    {
      var m := Mode(lines[i]);
      if m.value == test.background && m.count as real > test.length as real - test.threshold {
      } else {
        start := Some(i);
        break;
      }
      i := i + 1;
    }
    if start.Some? {
      FirstNonBorderIs(lines, test, start.value);
    }
  }

  /** Scans from the last line back and stops at the first non-border line
      found; the end of the half-open span is one past it. */
  method ScanBackward(lines: seq<seq<int>>, test: BorderTest) returns (end: Option<nat>)
    ensures end.None? <==> LastNonBorder(lines, test).None?
    ensures end.Some? ==> end.value == LastNonBorder(lines, test).value + 1
  {
    end := None;
    var k := 0;
    while k < |lines|
      invariant 0 <= k <= |lines|
      invariant forall j :: |lines| - k <= j < |lines| ==> test.IsBorder(lines[j])
    {
      var i := |lines| - 1 - k;
      var m := Mode(lines[i]);
      if m.value == test.background && m.count as real > test.length as real - test.threshold {
      } else {
        end := Some(i + 1);
        break;
      }
      k := k + 1;
    }
    if end.Some? {
      LastNonBorderIs(lines, test, end.value - 1);
    }
  }

  /** FirstNonBorder is determined by its contract. */
  lemma FirstNonBorderIs(lines: seq<seq<int>>, test: BorderTest, k: nat)
    requires k < |lines| && !test.IsBorder(lines[k])
    requires forall j :: 0 <= j < k ==> test.IsBorder(lines[j])
    ensures FirstNonBorder(lines, test) == Some(k)
  {
  }

  /** LastNonBorder is determined by its contract. */
  lemma LastNonBorderIs(lines: seq<seq<int>>, test: BorderTest, k: nat)
    requires k < |lines| && !test.IsBorder(lines[k])
    requires forall j :: k < j < |lines| ==> test.IsBorder(lines[j])
    ensures LastNonBorder(lines, test) == Some(k)
  {
  }

  /** Row modes of a concatenation are the concatenation of the row modes. */
  lemma {:induction false} RowModesAppend(a: seq<seq<int>>, b: seq<seq<int>>, exclude: real)
    ensures RowModes(a + b, exclude) == RowModes(a, exclude) + RowModes(b, exclude)
    decreases |b|
  {
    if b == [] {
      assert a + b == a;
    } else {
      var init, last := b[..|b| - 1], b[|b| - 1];
      assert b == init + [last];
      assert a + b == (a + init) + [last];
      RowModesAppend(a, init, exclude);
      RowModesSnoc(a + init, last, exclude);
      RowModesSnoc(init, last, exclude);
    }
  }

  /** Extending a prefix by one row appends that row's mode if it is
      representative. */
  lemma RowModesOfPrefix(rows: seq<seq<int>>, k: nat, exclude: real)
    requires k < |rows|
    ensures RowModes(rows[..k + 1], exclude)
         == RowModes(rows[..k], exclude) + if Represents(rows[k], exclude) then [Mode(rows[k]).value] else []
  {
    assert rows[..k + 1] == rows[..k] + [rows[k]];
    RowModesSnoc(rows[..k], rows[k], exclude);
  }

  /** Appending one row appends its mode if it is representative. */
  lemma RowModesSnoc(rows: seq<seq<int>>, row: seq<int>, exclude: real)
    ensures RowModes(rows + [row], exclude)
         == RowModes(rows, exclude) + if Represents(row, exclude) then [Mode(row).value] else []
  {
    assert (rows + [row])[..|rows|] == rows;
  }
}
