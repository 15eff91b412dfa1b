/**
  Package table: laying out a table of strings as padded text lines, one per
  row, each column as wide as its widest cell and columns separated by a
  fixed number of spaces. A cell's width on screen is taken to be its length.
*/
module Table {

  /** How a cell is placed in its column. */
  datatype Alignment = Left | Center | Right

  /** n spaces, as strings.Repeat(" ", n) gives them. */
  function Spaces(n: nat): (s: string)
    ensures |s| == n
  {
    seq(n, _ => ' ')
  }

  /** Every row has exactly `ncols` cells (the Go code panics otherwise). */
  predicate Rectangular(table: seq<seq<string>>, ncols: nat) {
    forall i :: 0 <= i < |table| ==> |table[i]| == ncols
  }

  /** The width of column j: its widest cell, or 0 for a table without rows. */
  function ColumnWidth(table: seq<seq<string>>, j: nat): (w: nat)
    requires forall i :: 0 <= i < |table| ==> j < |table[i]|
    ensures forall i :: 0 <= i < |table| ==> |table[i][j]| <= w
  {
    if table == [] then 0
    else
      var init := table[..|table| - 1];
      assert forall i :: 0 <= i < |init| ==> init[i] == table[i];
      var w := ColumnWidth(init, j);
      var last := |table[|table| - 1][j]|;
      if last > w then last else w
  }

  /** The width of a column is the width of one of its cells, unless the table has no rows. */
  lemma {:induction false} ColumnWidthAttained(table: seq<seq<string>>, j: nat)
    requires forall i :: 0 <= i < |table| ==> j < |table[i]|
    ensures |table| == 0 ==> ColumnWidth(table, j) == 0
    ensures |table| > 0 ==> exists i :: 0 <= i < |table| && |table[i][j]| == ColumnWidth(table, j)
  {
    if |table| > 0 {
      var n := |table| - 1;
      var init := table[..n];
      assert forall i :: 0 <= i < |init| ==> init[i] == table[i];
      if |table[n][j]| < ColumnWidth(init, j) {
        ColumnWidthAttained(init, j);
        var k :| 0 <= k < |init| && |init[k][j]| == ColumnWidth(init, j);
        assert table[k] == init[k];
      }
    }
  }

  function ColumnWidths(table: seq<seq<string>>, ncols: nat): (ws: seq<nat>)
    requires Rectangular(table, ncols)
    ensures |ws| == ncols
    ensures forall j :: 0 <= j < ncols ==> ws[j] == ColumnWidth(table, j)
  {
    seq(ncols, j requires 0 <= j < ncols => ColumnWidth(table, j))
  }

  /** The sum of the first k widths. */
  function SumTo(ws: seq<nat>, k: nat): nat
    requires k <= |ws|
  {
    if k == 0 then 0 else SumTo(ws, k - 1) + ws[k - 1]
  }

  /** The spaces put before a cell: none for Left, half the slack (rounded down) for Center, all of it for Right. */
  function Lead(a: Alignment, delta: nat): nat {
    match a
    case Left => 0
    case Center => delta / 2
    case Right => delta
  }

  /**
    A cell padded with spaces to `width`, the slack delta split as Lead says:
    Center puts delta/2 spaces before it and delta/2 + delta%2 after.
  */
  function PadCell(cell: string, width: nat, a: Alignment): (r: string)
    requires |cell| <= width
    ensures |r| == width
  {
    var delta := width - |cell|;
    match a
    case Left => cell + Spaces(delta)
    case Center => Spaces(delta / 2) + cell + Spaces(delta / 2 + delta % 2)
    case Right => Spaces(delta) + cell
  }

  /**
    A padded cell holds the cell at offset Lead and spaces everywhere else;
    for Center the spaces after it are as many as before it or one more.
  */
  lemma PadCellLayout(cell: string, width: nat, a: Alignment)
    requires |cell| <= width
    ensures var r, lead := PadCell(cell, width, a), Lead(a, width - |cell|);
      lead + |cell| <= width &&
      r[lead..lead + |cell|] == cell &&
      (forall i :: 0 <= i < lead ==> r[i] == ' ') &&
      (forall i :: lead + |cell| <= i < width ==> r[i] == ' ')
    ensures a == Center ==> var after := width - |cell| - Lead(a, width - |cell|);
      after == Lead(a, width - |cell|) || after == Lead(a, width - |cell|) + 1
  {
    var delta := width - |cell|;
    var r := PadCell(cell, width, a);
    match a
    case Left =>
      assert r == cell + Spaces(delta);
    case Center =>
      assert r == Spaces(delta / 2) + cell + Spaces(delta / 2 + delta % 2);
    case Right =>
      assert r == Spaces(delta) + cell;
  }

  /** Each cell of a row fits the width of its column, and each column has an alignment. */
  predicate CellsFit(row: seq<string>, widths: seq<nat>, alignment: seq<Alignment>) {
    |row| == |widths| == |alignment| &&
    forall j :: 0 <= j < |row| ==> |row[j]| <= widths[j]
  }

  /** The cells fit their columns and the spacing can be written where it is needed. */
  predicate RowFits(row: seq<string>, widths: seq<nat>, alignment: seq<Alignment>, spacing: int) {
    CellsFit(row, widths, alignment) && (spacing >= 0 || |row| <= 1)
  }

  /** The cells of a row, each padded to the width of its column. */
  function Padded(row: seq<string>, widths: seq<nat>, alignment: seq<Alignment>): (cells: seq<string>)
    requires CellsFit(row, widths, alignment)
    ensures |cells| == |row|
    ensures forall j :: 0 <= j < |row| ==> |cells[j]| == widths[j]
  {
    seq(|row|, j requires 0 <= j < |row| => PadCell(row[j], widths[j], alignment[j]))
  }

  /** What is written in front of column j: nothing for the first, `spacing` spaces for the others. */
  function Gap(spacing: int, j: nat): (g: string)
    requires j > 0 ==> spacing >= 0
    ensures |g| == if j > 0 then spacing else 0
  {
    if j > 0 then Spaces(spacing) else ""
  }

  /** The gaps can be written: a negative spacing is only harmless when there is no second column. */
  predicate Joinable(cells: seq<string>, spacing: int) {
    spacing >= 0 || |cells| <= 1
  }

  /** The first k padded cells, each after its gap. */
  function Joined(cells: seq<string>, spacing: int, k: nat): string
    requires Joinable(cells, spacing) && k <= |cells|
  {
    if k == 0 then "" else Joined(cells, spacing, k - 1) + Gap(spacing, k - 1) + cells[k - 1]
  }

  /** The line for one row. */
  function FormatRow(row: seq<string>, widths: seq<nat>, alignment: seq<Alignment>, spacing: int): string
    requires RowFits(row, widths, alignment, spacing)
  {
    Joined(Padded(row, widths, alignment), spacing, |row|)
  }

  /** The total width of the gaps in front of columns 1 .. k-1. */
  function Separators(spacing: int, k: nat): int {
    if k <= 1 then 0 else Separators(spacing, k - 1) + spacing
  }

  lemma {:induction false} SeparatorsProduct(spacing: int, k: nat)
    ensures Separators(spacing, k) == spacing * (if k == 0 then 0 else k - 1)
  {
    if k > 1 {
      SeparatorsProduct(spacing, k - 1);
    }
  }

  /** The first k columns take the first k widths and the gaps between them. */
  lemma {:induction false} JoinedLength(cells: seq<string>, widths: seq<nat>, spacing: int, k: nat)
    requires Joinable(cells, spacing) && k <= |cells| == |widths|
    requires forall j :: 0 <= j < |cells| ==> |cells[j]| == widths[j]
    ensures |Joined(cells, spacing, k)| == SumTo(widths, k) + Separators(spacing, k)
  {
    if k > 0 {
      JoinedLength(cells, widths, spacing, k - 1);
    }
  }

  /** The width the Go code reports: the column widths plus the spacing between columns. */
  function ReportedWidth(widths: seq<nat>, spacing: int): int {
    SumTo(widths, |widths|) + spacing * (|widths| - 1)
  }

  lemma RowsFit(table: seq<seq<string>>, alignment: seq<Alignment>, spacing: int)
    requires Rectangular(table, |alignment|)
    requires spacing >= 0 || |alignment| <= 1 || |table| == 0
    ensures forall i :: 0 <= i < |table| ==> RowFits(table[i], ColumnWidths(table, |alignment|), alignment, spacing)
  {
  }

  /** Adding a row to a table widens column j to that row's cell when the cell is wider. */
  lemma ColumnWidthOneMoreRow(table: seq<seq<string>>, i: nat, j: nat)
    requires i < |table| && forall r :: 0 <= r < |table| ==> j < |table[r]|
    ensures ColumnWidth(table[..i + 1], j) ==
      if |table[i][j]| > ColumnWidth(table[..i], j) then |table[i][j]| else ColumnWidth(table[..i], j)
  {
    assert table[..i + 1][..i] == table[..i];
  }

  /**
    The inner loop of the first loop of CreateTableLines: the widths of row i,
    and each column widened to its cell in that row.
  */
  method MeasureRow(table: seq<seq<string>>, i: nat, colWidths: array<nat>) returns (allWidthsRow: seq<nat>)
    requires Rectangular(table, colWidths.Length) && i < |table|
    requires forall c :: 0 <= c < colWidths.Length ==> colWidths[c] == ColumnWidth(table[..i], c)
    modifies colWidths
    ensures forall c :: 0 <= c < colWidths.Length ==> colWidths[c] == ColumnWidth(table[..i + 1], c)
    ensures |allWidthsRow| == colWidths.Length
    ensures forall c :: 0 <= c < colWidths.Length ==> allWidthsRow[c] == |table[i][c]|
  {
    var row := table[i];
    allWidthsRow := [];
    var j := 0;
    while j < colWidths.Length
      invariant 0 <= j <= colWidths.Length
      invariant |allWidthsRow| == j
      invariant forall c :: 0 <= c < j ==> allWidthsRow[c] == |row[c]|
      invariant forall c :: 0 <= c < j ==> colWidths[c] == ColumnWidth(table[..i + 1], c)
      invariant forall c :: j <= c < colWidths.Length ==> colWidths[c] == ColumnWidth(table[..i], c)
    {
      var w := |row[j]|;
      allWidthsRow := allWidthsRow + [w];
      ColumnWidthOneMoreRow(table, i, j);
      if w > colWidths[j] {
        colWidths[j] := w;
      }
      j := j + 1;
    }
  }

  /**
    The first loop of CreateTableLines: every cell's width, row by row, and
    in colWidths the widest cell of each column.
  */
  method MeasureColumns(table: seq<seq<string>>, ncols: nat) returns (colWidths: array<nat>, allWidths: seq<seq<nat>>)
    requires Rectangular(table, ncols)
    ensures fresh(colWidths)
    ensures colWidths[..] == ColumnWidths(table, ncols)
    ensures |allWidths| == |table|
    ensures forall r :: 0 <= r < |table| ==> |allWidths[r]| == ncols
    ensures forall r, c :: 0 <= r < |table| && 0 <= c < ncols ==> allWidths[r][c] == |table[r][c]|
  {
    colWidths := new nat[ncols](_ => 0);
    allWidths := [];
    var i := 0;
    while i < |table|
      invariant 0 <= i <= |table| && colWidths.Length == ncols
      invariant forall j :: 0 <= j < ncols ==> colWidths[j] == ColumnWidth(table[..i], j)
      invariant |allWidths| == i
      invariant forall r :: 0 <= r < i ==> |allWidths[r]| == ncols
      invariant forall r, c :: 0 <= r < i && 0 <= c < ncols ==> allWidths[r][c] == |table[r][c]|
    {
      var allWidthsRow := MeasureRow(table, i, colWidths);
      allWidths := allWidths + [allWidthsRow];
      i := i + 1;
    }
    assert table[..|table|] == table;
  }

  /**
    One column of the inner loop of CreateTableLines: the cell and its
    padding, appended to the builder in the order the alignment asks for.
  */
  method AppendCell(sb: string, cell: string, delta: nat, a: Alignment) returns (out: string)
    ensures out == sb + PadCell(cell, |cell| + delta, a)
  {
    out := sb;
    match a {
      case Left =>
        out := out + cell;
        out := out + Spaces(delta);
        assert out == sb + (cell + Spaces(delta));
      case Center =>
        out := out + Spaces(delta / 2);
        out := out + cell;
        out := out + Spaces(delta / 2 + delta % 2);
        assert out == sb + (Spaces(delta / 2) + cell + Spaces(delta / 2 + delta % 2));
      case Right =>
        out := out + Spaces(delta);
        out := out + cell;
        assert out == sb + (Spaces(delta) + cell);
    }
  }

  /**
    The inner loop of CreateTableLines for one row: the builder receives, per
    column, the gap (from the second column on) and the padded cell.
  */
  method WriteLine(row: seq<string>, rowWidth: seq<nat>, colWidths: array<nat>, alignment: seq<Alignment>, columnSpacing: int)
    returns (line: string)
    requires RowFits(row, colWidths[..], alignment, columnSpacing)
    requires |rowWidth| == |row| && forall c :: 0 <= c < |row| ==> rowWidth[c] == |row[c]|
    ensures line == FormatRow(row, colWidths[..], alignment, columnSpacing)
  {
    ghost var widths := colWidths[..];
    ghost var cells := Padded(row, widths, alignment);
    var sb := "";
    var j := 0;
    while j < |row|
      invariant 0 <= j <= |row|
      invariant sb == Joined(cells, columnSpacing, j)
    {
      var w := rowWidth[j];
      var delta := colWidths[j] - w;
      var next := sb;
      if j > 0 {
        next := next + Spaces(columnSpacing);
      }
      next := AppendCell(next, row[j], delta, alignment[j]);
      assert next == Joined(cells, columnSpacing, j + 1) by {
        assert |row[j]| + delta == widths[j];
        assert cells[j] == PadCell(row[j], |row[j]| + delta, alignment[j]);
      }
      sb := next;
      j := j + 1;
    }
    line := sb;
  }

  /** The second loop of CreateTableLines: the sum of the column widths. */
  method AddWidths(colWidths: array<nat>) returns (maxw: nat)
    ensures maxw == SumTo(colWidths[..], colWidths.Length)
  {
    maxw := 0;
    var k := 0;
    while k < colWidths.Length
      invariant 0 <= k <= colWidths.Length
      invariant maxw == SumTo(colWidths[..], k)
    {
      maxw := maxw + colWidths[k];
      k := k + 1;
    }
  }

  /** The third loop of CreateTableLines: one line per row. */
  method WriteLines(table: seq<seq<string>>, allWidths: seq<seq<nat>>, colWidths: array<nat>, alignment: seq<Alignment>, columnSpacing: int)
    returns (lines: seq<string>)
    requires forall i :: 0 <= i < |table| ==> RowFits(table[i], colWidths[..], alignment, columnSpacing)
    requires |allWidths| == |table|
    requires forall r :: 0 <= r < |table| ==> |allWidths[r]| == |table[r]|
    requires forall r, c :: 0 <= r < |table| && 0 <= c < |table[r]| ==> allWidths[r][c] == |table[r][c]|
    ensures |lines| == |table|
    ensures forall i :: 0 <= i < |table| ==> lines[i] == FormatRow(table[i], colWidths[..], alignment, columnSpacing)
  {
    ghost var widths := colWidths[..];
    var out := new string[|table|](_ => "");
    var i := 0;
    while i < |table|
      invariant 0 <= i <= |table|
      invariant forall r :: 0 <= r < i ==> out[r] == FormatRow(table[r], widths, alignment, columnSpacing)
    {
      var line := WriteLine(table[i], allWidths[i], colWidths, alignment, columnSpacing);
      out[i] := line;
      i := i + 1;
    }
    lines := out[..];
  }

  /**
    CreateTableLines: measure the columns, add up the width, then write one
    line per row.
  */
  method CreateTableLines(alignment: seq<Alignment>, columnSpacing: int, table: seq<seq<string>>)
    returns (lines: seq<string>, width: int)
    requires Rectangular(table, |alignment|)
    requires columnSpacing >= 0 || |alignment| <= 1 || |table| == 0
    ensures |lines| == |table|
    ensures width == ReportedWidth(ColumnWidths(table, |alignment|), columnSpacing)
    ensures forall i :: 0 <= i < |table| ==>
      RowFits(table[i], ColumnWidths(table, |alignment|), alignment, columnSpacing) &&
      lines[i] == FormatRow(table[i], ColumnWidths(table, |alignment|), alignment, columnSpacing)
  {
    var nrows, ncols := |table|, |alignment|;
    var colWidths, allWidths := MeasureColumns(table, ncols);

    var maxw := AddWidths(colWidths);
    maxw := maxw + columnSpacing * (ncols - 1);

    RowsFit(table, alignment, columnSpacing);
    lines := WriteLines(table, allWidths, colWidths, alignment, columnSpacing);
    width := maxw;
  }

  /** Every line is exactly as wide as the reported width, as soon as there is a column. */
  lemma LinesAsWideAsReported(row: seq<string>, widths: seq<nat>, alignment: seq<Alignment>, spacing: int)
    requires RowFits(row, widths, alignment, spacing) && |row| >= 1
    ensures |FormatRow(row, widths, alignment, spacing)| == ReportedWidth(widths, spacing)
  {
    JoinedLength(Padded(row, widths, alignment), widths, spacing, |row|);
    SeparatorsProduct(spacing, |row|);
  }

  lemma PrefixOfConcat(b: string, gap: string, cell: string, c: string)
    requires c == b + gap + cell
    ensures b <= c
  {
    assert c[..|b|] == b;
  }

  lemma PrefixTransitive(a: string, b: string, c: string)
    requires a <= b && b <= c
    ensures a <= c
  {
    assert forall i :: 0 <= i < |a| ==> a[i] == b[i] == c[i];
  }

  /** Writing more columns only appends to a line. */
  lemma {:induction false} JoinedGrows(cells: seq<string>, spacing: int, k1: nat, k2: nat)
    requires Joinable(cells, spacing) && k1 <= k2 <= |cells|
    ensures Joined(cells, spacing, k1) <= Joined(cells, spacing, k2)
  {
    if k1 < k2 {
      JoinedGrows(cells, spacing, k1, k2 - 1);
      PrefixOfConcat(Joined(cells, spacing, k2 - 1), Gap(spacing, k2 - 1), cells[k2 - 1], Joined(cells, spacing, k2));
      PrefixTransitive(Joined(cells, spacing, k1), Joined(cells, spacing, k2 - 1), Joined(cells, spacing, k2));
    }
  }

  /** Where column j starts in every line: after the earlier columns and their gaps. */
  function ColumnStart(widths: seq<nat>, spacing: int, j: nat): int
    requires j <= |widths|
  {
    SumTo(widths, j) + Separators(spacing, j + 1)
  }

  /** A piece of a string that begins a line sits at the same offset, lo .. hi, in the line. */
  lemma PieceOfPrefix(line: string, before: string, gap: string, piece: string, lo: int, hi: int)
    requires before + gap + piece <= line
    requires lo == |before| + |gap| && hi == lo + |piece|
    ensures 0 <= lo <= hi <= |line| && line[lo..hi] == piece
  {
    var upto := before + gap + piece;
    assert line[..|upto|] == upto;
    assert upto[lo..] == piece;
  }

  /** The gap of a string that begins a line sits at lo .. hi, just before the piece after it. */
  lemma GapOfPrefix(line: string, before: string, gap: string, piece: string, lo: int, hi: int)
    requires before + gap + piece <= line
    requires lo == |before| && hi == lo + |gap|
    ensures 0 <= lo <= hi <= |line| && line[lo..hi] == gap
  {
    var upto := before + gap + piece;
    assert line[..|upto|] == upto;
    assert upto[lo..hi] == gap;
  }

  /** Column j of a line is its cell padded to the column width, found at ColumnStart. */
  lemma CellPlacement(row: seq<string>, widths: seq<nat>, alignment: seq<Alignment>, spacing: int, j: nat)
    requires RowFits(row, widths, alignment, spacing) && j < |row|
    ensures 0 <= ColumnStart(widths, spacing, j) <= ColumnStart(widths, spacing, j) + widths[j] <= |FormatRow(row, widths, alignment, spacing)|
    ensures FormatRow(row, widths, alignment, spacing)[ColumnStart(widths, spacing, j)..ColumnStart(widths, spacing, j) + widths[j]] ==
      PadCell(row[j], widths[j], alignment[j])
  {
    var cells := Padded(row, widths, alignment);
    var start := ColumnStart(widths, spacing, j);
    JoinedGrows(cells, spacing, j + 1, |row|);
    JoinedLength(cells, widths, spacing, j);
    PieceOfPrefix(Joined(cells, spacing, |row|), Joined(cells, spacing, j), Gap(spacing, j), cells[j], start, start + widths[j]);
  }

  /** From the second column on, a column is preceded by exactly `spacing` spaces. */
  lemma SeparatorPlacement(row: seq<string>, widths: seq<nat>, alignment: seq<Alignment>, spacing: int, j: nat)
    requires RowFits(row, widths, alignment, spacing) && 0 < j < |row|
    ensures 0 <= ColumnStart(widths, spacing, j) - spacing <= ColumnStart(widths, spacing, j) <= |FormatRow(row, widths, alignment, spacing)|
    ensures FormatRow(row, widths, alignment, spacing)[ColumnStart(widths, spacing, j) - spacing..ColumnStart(widths, spacing, j)] == Spaces(spacing)
  {
    var cells := Padded(row, widths, alignment);
    var start := ColumnStart(widths, spacing, j);
    JoinedGrows(cells, spacing, j + 1, |row|);
    JoinedLength(cells, widths, spacing, j);
    GapOfPrefix(Joined(cells, spacing, |row|), Joined(cells, spacing, j), Gap(spacing, j), cells[j], start - spacing, start);
  }
}
