/** Wrap geometry of one indexed line (ovim-core/src/line_layout.rs): plain ASCII by
    arithmetic, anything else by built rows, with the same answers. */
module LineLayouts {
  import opened Arithmetic
  import opened Basics
  import opened Search
  import opened Display
  import opened Segments
  import opened DisplaySpecials
  import opened LineIndexes
  import opened LineIndexQueries
  import opened Wraps
  import opened EagerWalks
  import opened RowPositions
  import opened RowCells
  import opened RowBuilders
  import opened ComposedColumns

  // ----- plain ASCII ------------------------------------------------------------------

  predicate AllOnes(atoms: seq<Atom>) {
    forall k :: 0 <= k < |atoms| ==> atoms[k].width == 1
  }

  /** Full rows of `width` one after the other, the last one begun. */
  predicate Even(s: Laid, width: nat) {
    s.starts != [] && (forall r: nat :: r < |s.starts| ==> s.starts[r] == r * width) &&
    s.flat == (|s.starts| - 1) * width + s.col && s.col <= width && (s.col == 0 ==> s.flat == 0)
  }

  lemma EvenStep(s: Laid, a: Atom, width: nat)
    requires Even(s, width) && a.width == 1 && width >= 1
    ensures Even(Step(s, a, width), width)
  {
    var t := Step(s, a, width);
    if s.col + 1 > width {
      assert |s.starts| * width == (|s.starts| - 1) * width + width;
      forall r: nat | r < |t.starts| ensures t.starts[r] == r * width {
      }
    }
  }

  lemma {:induction false} EvenLay(s: Laid, atoms: seq<Atom>, width: nat)
    requires Even(s, width) && AllOnes(atoms) && width >= 1
    ensures Even(Lay(s, atoms, width), width) && Lay(s, atoms, width).flat == s.flat + |atoms|
    decreases |atoms|
  {
    if atoms != [] {
      EvenStep(s, atoms[0], width);
      EvenLay(Step(s, atoms[0], width), atoms[1..], width);
    }
  }

  function Ceiling(n: nat, d: nat): nat
    requires d >= 1
  {
    (n + d - 1) / d
  }

  /** As many rows as the length divides into, and at least one. */
  lemma EvenCount(s: Laid, width: nat)
    requires Even(s, width) && width >= 1
    ensures |s.starts| == Ceiling(if s.flat >= 1 then s.flat else 1, width)
  {
    var rows := |s.starts|;
    assert rows * width == (rows - 1) * width + width;
    if s.flat >= 1 {
      QuotientIs(s.flat + width - 1, rows, s.col - 1, width);
    } else {
      MultipleBeyond(rows - 1, width);
      QuotientIs(width, 1, 0, width);
    }
  }

  lemma EvenBelow(s: Laid, width: nat, d: nat, q: nat, cut: nat)
    requires Even(s, width) && q * width <= d && cut <= |s.starts| && cut <= q + 1
    ensures forall x :: x in s.starts[..cut] ==> x <= d
  {
    forall x | x in s.starts[..cut] ensures x <= d {
      var i :| 0 <= i < cut && s.starts[..cut][i] == x;
      Multiples(i, q, width);
    }
  }

  lemma EvenAbove(s: Laid, width: nat, d: nat, q: nat)
    requires Even(s, width) && d < q * width + width
    ensures forall k :: q < k < |s.starts| ==> s.starts[k] > d
  {
    forall k | q < k < |s.starts| ensures s.starts[k] > d {
      Multiples(q + 1, k, width);
      assert (q + 1) * width == q * width + width;
    }
  }

  /** On even rows the position of a column is its quotient and remainder. */
  lemma EvenPosition(s: Laid, width: nat, d: nat)
    requires Even(s, width) && width >= 1 && d <= s.flat
    ensures PositionInRows(s.starts, width, d) == (d / width, d % width)
  {
    EvenAt(s, width, d, d / width, d % width);
  }

  lemma EvenAt(s: Laid, width: nat, d: nat, q: nat, r: nat)
    requires Even(s, width) && d <= s.flat && d == q * width + r && r < width
    ensures PositionInRows(s.starts, width, d) == (q, r)
  {
    EvenQuotient(s, width, d, q, r);
    EvenCut(s, width, d, q, r);
    assert |s.starts| * width == (|s.starts| - 1) * width + width;
  }

  lemma EvenCut(s: Laid, width: nat, d: nat, q: nat, r: nat)
    requires Even(s, width) && d == q * width + r && r < width && q <= |s.starts|
    ensures var row := if q < |s.starts| then q else |s.starts| - 1;
            PositionInRows(s.starts, width, d)
            == if d - row * width >= width then (row + 1, 0) else (row, d - row * width)
  {
    var cut := if q < |s.starts| then q + 1 else |s.starts|;
    EvenBelow(s, width, d, q, cut);
    EvenAbove(s, width, d, q);
    SplitPosition(s.starts[..cut], s.starts, width, d);
    assert s.starts[..cut][cut - 1] == (cut - 1) * width;
  }

  lemma Multiples(i: nat, j: nat, width: nat)
    requires i <= j
    ensures i * width <= j * width
  {
    if i < j && width >= 1 {
      MultipleBeyond(j - i, width);
      assert (j - i) * width == j * width - i * width;
    }
  }

  lemma EvenQuotient(s: Laid, width: nat, d: nat, q: nat, r: nat)
    requires Even(s, width) && width >= 1 && d <= s.flat && d == q * width + r && r < width
    ensures q <= |s.starts| && (q == |s.starts| ==> r == 0)
  {
    var rows := |s.starts|;
    assert rows * width == (rows - 1) * width + width;
    assert (q - rows) * width == q * width - rows * width;
    MultipleBeyond(q - rows, width);
  }

  // ----- plain lines --------------------------------------------------------------------

  lemma {:induction false} NoSpecials(cs: seq<Cluster>, n: nat, k: nat)
    requires k < n <= |cs| && SpecialsIn(cs, 0, n) == []
    ensures !IsSpecial(cs[k])
  {
    if k < n - 1 {
      NoSpecials(cs, n - 1, k);
    }
  }

  /** A plain line is one-cell atoms, one for each character. */
  lemma {:induction false} PlainContent(cs: seq<Cluster>, tab: nat, k: nat)
    requires k <= |cs| && tab >= 1
    requires forall j :: 0 <= j < |cs| ==> !IsSpecial(cs[j]) && cs[j].chars == 1
    ensures AllOnes(ContentFrom(cs, [], tab, k, 0)) && |ContentFrom(cs, [], tab, k, 0)| == |cs| - k
    decreases |cs| - k
  {
    if k < |cs| {
      PlainContent(cs, tab, k + 1);
    }
  }

  lemma PlainLine(u: Unicode, l: Layout, tab: nat, width: nat)
    requires Lawful(u) && Faithful(u, l, l.text) && l.ascii && l.specials == [] && tab >= 1 && width >= 1
    ensures Even(LineLayout(Clusters(u, l.text), [], tab, width), width)
    ensures LineLayout(Clusters(u, l.text), [], tab, width).flat == |l.text|
  {
    var cs := Clusters(u, l.text);
    AsciiLength(u, l.text);
    forall j: nat | j < |cs| ensures !IsSpecial(cs[j]) && cs[j].chars == 1 {
      AsciiClusters(u, l.text, j);
      NoSpecials(cs, |cs|, j);
    }
    PlainContent(cs, tab, 0);
    UsedNone(cs, 0);
    assert Content(cs, [], tab) + [] == Content(cs, [], tab);
    EvenLay(TOP, Content(cs, [], tab), width);
  }

  lemma {:induction false} UsedNone(cs: seq<Cluster>, k: nat)
    requires k <= |cs|
    ensures UsedFrom(cs, [], k, 0) == 0
    decreases |cs| - k
  {
    if k < |cs| {
      UsedNone(cs, k + 1);
    }
  }

  // ----- IndexedLineLayout -------------------------------------------------------------------

  datatype Geometry = PlainAscii(len: nat) | Rich(rows: seq<RowPlan>)

  /** The geometry is that of the cell-by-cell layout `s`. */
  predicate Describes(g: Geometry, l: Layout, runs: seq<Run>, s: Laid, width: nat) {
    match g
    case PlainAscii(len) => l.ascii && l.specials == [] && runs == [] && len == |l.text|
    case Rich(rows) => Complete(rows, s, width)
  }

  method Measure(line: LineIndex, width: nat, tab: nat, runs: seq<Run>) returns (g: Geometry)
    requires line.Valid() && width >= 1 && tab >= 1
    ensures Describes(g, line.layout, runs, LineLayout(line.Line(), runs, tab, width), width)
  {
    if line.IsPlainAscii() && runs == [] {
      return PlainAscii(line.LenChars());
    }
    var rows := BuildRichRows(line.Line(), width, tab, runs);
    return Rich(rows);
  }

  class IndexedLineLayout {
    const line: LineIndex
    const width: nat
    const tabWidth: nat
    const inlineRuns: seq<Run>
    const geometry: Geometry

    ghost function Rows(): Laid
      requires tabWidth >= 1
    {
      LineLayout(line.Line(), inlineRuns, tabWidth, width)
    }

    ghost predicate Valid()
      reads line`displays
    {
      line.Valid() && width >= 1 && tabWidth >= 1 && Describes(geometry, line.layout, inlineRuns, Rows(), width)
    }

    constructor FromRuns(line: LineIndex, width: nat, tabWidth: nat, runs: seq<Run>)
      requires line.Valid()
      ensures Valid() && this.line == line && inlineRuns == runs
      ensures this.width == AtLeastOne(width) && this.tabWidth == AtLeastOne(tabWidth)
    {
      var w, tab := AtLeastOne(width), AtLeastOne(tabWidth);
      var g := Measure(line, w, tab, runs);
      this.line, this.width, this.tabWidth, this.inlineRuns, this.geometry := line, w, tab, runs, g;
    }

    /** As many rows as the wrap walk counts. */
    function RowCount(): (n: nat)
      reads line`displays
      requires Valid()
      ensures n == |Rows().starts|
    {
      match geometry
      case PlainAscii(len) =>
        PlainLine(line.u, line.layout, tabWidth, width);
        EvenCount(Rows(), width);
        Ceiling(if len >= 1 then len else 1, width)
      case Rich(rows) => |rows|
    }

    /** Rows cover the composed line end to end. */
    function DisplayRangeForRow(row: nat): (r: Option<(nat, nat)>)
      reads line`displays
      requires Valid()
      ensures r.None? <==> row >= |Rows().starts|
      ensures r.Some? ==> r.value.0 == Rows().starts[row] &&
                          r.value.1 == if row + 1 < |Rows().starts| then Rows().starts[row + 1] else Rows().flat
    {
      match geometry
      case PlainAscii(len) =>
        PlainLine(line.u, line.layout, tabWidth, width);
        if row >= RowCount() then None
        else
          assert row * width == Rows().starts[row];
          RowBound(Rows(), width, row);
          Some((row * width, Min(row * width + width, len)))
      case Rich(rows) =>
        if row >= |rows| then None else Some((rows[row].displayStart, rows[row].displayEnd))
    }

    /** A character's position, from the row that shows its composed column. */
    method PositionForChar(charColumn: nat) returns (row: int, column: int)
      requires Valid()
      modifies line`displays
      ensures Valid()
      ensures var at := Composed(line.Line(), inlineRuns, tabWidth, Min(charColumn, |line.layout.text|));
              (row, column) == PositionInRows(Rows().starts, width, at)
    {
      var col := Min(charColumn, |line.layout.text|);
      var display := ComposedColumn(col);
      ComposedWithin(line.Line(), inlineRuns, tabWidth, width, col);
      row, column := PositionOfColumn(display);
    }

    method ComposedColumn(col: nat) returns (display: int)
      requires Valid()
      modifies line`displays
      ensures line.Valid() && display == Composed(line.Line(), inlineRuns, tabWidth, col)
    {
      var cells := line.CharToDisplayCol(col, tabWidth);
      LineLength(line.u, line.layout.text);
      display := cells + InlineBefore(inlineRuns, col, |line.layout.text|);
    }

    method PositionOfColumn(display: nat) returns (row: int, column: int)
      requires Valid() && display <= Rows().flat
      ensures (row, column) == PositionInRows(Rows().starts, width, display)
    {
      match geometry {
        case PlainAscii(len) =>
          PlainPosition(line.u, line.layout, tabWidth, width, display);
          return display / width, display % width;
        case Rich(rows) =>
          StartsAtZero(line.Line(), inlineRuns, tabWidth, width);
          row, column := PositionInPlans(rows, width, display, Rows().starts, Rows().flat, Rows());
      }
    }
  }

  lemma PlainPosition(u: Unicode, l: Layout, tab: nat, width: nat, d: nat)
    requires Lawful(u) && Faithful(u, l, l.text) && l.ascii && l.specials == [] && tab >= 1 && width >= 1
    requires d <= LineLayout(Clusters(u, l.text), [], tab, width).flat
    ensures PositionInRows(LineLayout(Clusters(u, l.text), [], tab, width).starts, width, d) == (d / width, d % width)
  {
    PlainLine(u, l, tab, width);
    EvenPosition(LineLayout(Clusters(u, l.text), [], tab, width), width, d);
  }

  lemma {:induction false} LayKeepsFirst(s: Laid, atoms: seq<Atom>, width: nat)
    requires s.starts != [] && s.starts[0] == 0
    ensures Lay(s, atoms, width).starts != [] && Lay(s, atoms, width).starts[0] == 0
    decreases |atoms|
  {
    if atoms != [] {
      LayKeepsFirst(Step(s, atoms[0], width), atoms[1..], width);
    }
  }

  lemma StartsAtZero(cs: seq<Cluster>, runs: seq<Run>, tab: nat, width: nat)
    requires tab >= 1
    ensures LineLayout(cs, runs, tab, width).starts != [] && LineLayout(cs, runs, tab, width).starts[0] == 0
  {
    LayKeepsFirst(TOP, Content(cs, runs, tab) + Trailing(cs, runs), width);
  }

  lemma RowBound(s: Laid, width: nat, row: nat)
    requires Even(s, width) && width >= 1 && row < |s.starts|
    ensures Min(row * width + width, s.flat) == if row + 1 < |s.starts| then s.starts[row + 1] else s.flat
  {
    assert (row + 1) * width == row * width + width;
    if row + 1 < |s.starts| {
      Multiples(row + 1, |s.starts| - 1, width);
    }
  }

  /** Fragments left of a column account for every cell up to it. */
  method ColumnInRow(fs: seq<Fragment>, start: nat, d: nat) returns (column: nat)
    requires Tiled(fs, start) && start <= d && d - start <= RowWidth(fs)
    ensures column == d - start
  {
    column := 0;
    for j := 0 to |fs|
      invariant column == Min(d - start, CellsTo(fs, j))
    {
      assert fs[j].rowColumn == CellsTo(fs, j);
      if fs[j].displayStart > d {
        return;
      }
      column := fs[j].rowColumn + Min(d - fs[j].displayStart, fs[j].cells);
    }
  }

  /** The last row that starts by a column reaches it. */
  lemma RowReaches(rows: seq<RowPlan>, s: Laid, width: nat, d: nat, row: nat)
    requires Complete(rows, s, width) && row < |rows| && s.starts[row] <= d <= s.flat
    requires row + 1 < |rows| ==> d < s.starts[row + 1]
    ensures Tiled(rows[row].fragments, rows[row].displayStart) && rows[row].displayStart == s.starts[row]
    ensures d - s.starts[row] <= RowWidth(rows[row].fragments)
  {
    var fs := rows[row].fragments;
    assert Shown(fs) <= RowWidth(fs);
    if row + 1 < |rows| {
      assert Closed(rows[row], s.starts[row + 1], width);
    } else {
      assert RowSound(rows[row], s.flat, width);
    }
  }

  lemma StartsByColumn(starts: seq<nat>, d: nat)
    requires starts != [] && starts[0] <= d
    ensures var pos := PartitionPoint(starts, (x: nat) => x <= d);
            pos > 0 && starts[pos - 1] <= d && (pos < |starts| ==> d < starts[pos])
  {
  }

  method RowOfColumn(rows: seq<RowPlan>, width: nat, d: nat, ghost starts: seq<nat>) returns (row: nat)
    requires |rows| == |starts| && (forall r :: 0 <= r < |rows| ==> rows[r].displayStart == starts[r])
    requires starts != [] && starts[0] <= d
    ensures row < |rows| && starts[row] <= d && (row + 1 < |rows| ==> d < starts[row + 1])
    ensures PositionInRows(starts, width, d)
            == if d - starts[row] >= width then (row + 1, 0) else (row, d - starts[row])
  {
    var pos := PartitionPoint(rows, (p: RowPlan) => p.displayStart <= d);
    PartitionStarts(rows, starts, d);
    StartsByColumn(starts, d);
    row := if pos > 0 then pos - 1 else 0;
  }

  /** The row of rich geometry that shows a column, and the cell in it. */
  method PositionInPlans(rows: seq<RowPlan>, width: nat, d: nat, ghost starts: seq<nat>, ghost flat: nat, ghost s: Laid)
      returns (row: int, column: int)
    requires Complete(rows, s, width) && starts == s.starts && flat == s.flat && starts != [] && starts[0] <= d <= flat
    ensures (row, column) == PositionInRows(starts, width, d)
  {
    var shown := RowOfColumn(rows, width, d, starts);
    RowReaches(rows, s, width, d, shown);
    row := shown;
    column := ColumnInRow(rows[shown].fragments, rows[shown].displayStart, d);
    if column >= width {
      row, column := row + 1, 0;
    }
  }

  lemma {:induction false} PartitionStarts(rows: seq<RowPlan>, starts: seq<nat>, d: nat)
    requires |rows| == |starts| && forall r :: 0 <= r < |rows| ==> rows[r].displayStart == starts[r]
    ensures PartitionPoint(rows, (p: RowPlan) => p.displayStart <= d) == PartitionPoint(starts, (x: nat) => x <= d)
  {
    if rows != [] && rows[0].displayStart <= d {
      PartitionStarts(rows[1..], starts[1..], d);
    }
  }

  /** A composed column lies within the line. */
  lemma ComposedWithin(cs: seq<Cluster>, runs: seq<Run>, tab: nat, width: nat, col: nat)
    requires tab >= 1
    ensures Composed(cs, runs, tab, col) <= LineLayout(cs, runs, tab, width).flat
  {
    DisplayStartGrows(cs, CeilCluster(cs, col, 0), |cs|, tab);
    InlineAtMost(runs, col, CharStart(cs, |cs|));
    LineWidth(cs, runs, tab, width);
  }

  /** Every cell of the content and of every decoration is laid out once. */
  lemma LineWidth(cs: seq<Cluster>, runs: seq<Run>, tab: nat, width: nat)
    requires tab >= 1
    ensures LineLayout(cs, runs, tab, width).flat == DisplayStart(cs, |cs|, tab) + WidthTo(runs, |runs|)
  {
    LayFlat(TOP, Content(cs, runs, tab) + Trailing(cs, runs), width);
    WidthsConcat(Content(cs, runs, tab), Trailing(cs, runs));
    ContentWidth(cs, runs, tab);
    CutUsed(cs, runs, |cs|);
    RunsWidth(runs, UsedBefore(cs, runs, |cs|), |runs|, CharStart(cs, |cs|));
  }
}
