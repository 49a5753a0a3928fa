/** Building the visual rows of a rich line (ovim-core/src/line_layout.rs). Runs of
    cells are placed a row at a time, glyphs whole; the result is compared with the
    cell-by-cell layout of module Wraps. */
module RowBuilders {
  import opened Basics
  import opened Display
  import opened Wraps
  import opened RowCells

  // ----- the shape of a row --------------------------------------------------------------

  /** Fragments lie side by side from column 0, each as far into the row as into the
      composed line; only the last may be padding. */
  predicate Tiled(fs: seq<Fragment>, start: nat) {
    (forall j :: 0 <= j < |fs| ==> start + fs[j].rowColumn == fs[j].displayStart) &&
    (fs != [] ==> fs[0].rowColumn == 0) &&
    (forall i, j :: 0 <= i && j == i + 1 < |fs| ==> fs[j].rowColumn == fs[i].rowColumn + fs[i].cells) &&
    (forall j :: 0 <= j < |fs| - 1 ==> fs[j].kind != Padding)
  }

  /** Cells up to fragment `j`. */
  function CellsTo(fs: seq<Fragment>, j: nat): nat
    requires j <= |fs|
  {
    if j == 0 then 0 else fs[j - 1].rowColumn + fs[j - 1].cells
  }

  /** Cells of a row, padding included. */
  function RowWidth(fs: seq<Fragment>): nat {
    CellsTo(fs, |fs|)
  }

  predicate Padded(fs: seq<Fragment>) {
    fs != [] && fs[|fs| - 1].kind == Padding
  }

  /** Cells of a row that show something. */
  function Shown(fs: seq<Fragment>): nat {
    if Padded(fs) then fs[|fs| - 1].rowColumn else RowWidth(fs)
  }

  /** The row shows the display columns from its start to `end`, and is overfull only
      when it holds a single glyph wider than the view. */
  predicate RowSound(row: RowPlan, end: nat, width: nat) {
    Tiled(row.fragments, row.displayStart) && row.displayStart + Shown(row.fragments) == end &&
    (RowWidth(row.fragments) > width ==> |row.fragments| == 1 && !Padded(row.fragments))
  }

  /** A row that is not the last is full, padding counted. */
  predicate Closed(row: RowPlan, end: nat, width: nat) {
    RowSound(row, end, width) && row.displayEnd == end && RowWidth(row.fragments) >= width
  }

  /** The rows so far lay out the same cells as `s`, `open` columns into the last. */
  predicate Built(rows: seq<RowPlan>, s: Laid, width: nat, open: nat) {
    |rows| == |s.starts| && rows != [] &&
    (forall r :: 0 <= r < |rows| ==> rows[r].displayStart == s.starts[r]) &&
    (forall r :: 0 <= r < |rows| - 1 ==> Closed(rows[r], s.starts[r + 1], width)) &&
    RowSound(rows[|rows| - 1], s.flat, width) && RowWidth(rows[|rows| - 1].fragments) == open
  }

  // ----- pushing a fragment -----------------------------------------------------------------

  lemma PushTiled(fs: seq<Fragment>, f: Fragment, start: nat)
    requires Tiled(fs, start) && !Padded(fs)
    requires f.rowColumn == RowWidth(fs) && f.displayStart == start + RowWidth(fs)
    ensures Tiled(Pushed(fs, f), start) && RowWidth(Pushed(fs, f)) == RowWidth(fs) + f.cells
    ensures Shown(Pushed(fs, f)) == if f.kind.Padding? then Shown(fs) else Shown(fs) + f.cells
    ensures Padded(Pushed(fs, f)) <==> f.kind.Padding?
    ensures |Pushed(fs, f)| == 1 || fs != []
  {
  }

  function Widened(s: Laid, cells: nat): Laid {
    s.(col := s.col + cells, flat := s.flat + cells)
  }

  /** Pushing cells that fit on the open row, or a glyph on an empty one. */
  lemma PushBuilt(rows: seq<RowPlan>, s: Laid, t: Laid, width: nat, open: nat, f: Fragment)
    requires Built(rows, s, width, open) && !Padded(rows[|rows| - 1].fragments)
    requires f.rowColumn == open && f.displayStart == s.flat && !f.kind.Padding?
    requires open + f.cells <= width || rows[|rows| - 1].fragments == []
    requires t.starts == s.starts && t.flat == s.flat + f.cells
    ensures var last := rows[|rows| - 1];
            var rows' := WithLast(rows, last.(fragments := Pushed(last.fragments, f)));
            Built(rows', t, width, open + f.cells) && !Padded(rows'[|rows'| - 1].fragments)
  {
    var last := rows[|rows| - 1];
    PushTiled(last.fragments, f, last.displayStart);
  }

  lemma PadBuilt(rows: seq<RowPlan>, s: Laid, width: nat, open: nat, f: Fragment)
    requires Built(rows, s, width, open) && !Padded(rows[|rows| - 1].fragments)
    requires f.rowColumn == open && f.displayStart == s.flat && f.kind.Padding? && open + f.cells <= width
    ensures var last := rows[|rows| - 1];
            Built(WithLast(rows, last.(fragments := Pushed(last.fragments, f))), s, width, open + f.cells)
  {
    var last := rows[|rows| - 1];
    PushTiled(last.fragments, f, last.displayStart);
  }

  lemma NextBuilt(rows: seq<RowPlan>, s: Laid, width: nat, open: nat, at: nat)
    requires Built(rows, s, width, open) && open >= width
    ensures var rows' := WithLast(rows, rows[|rows| - 1].(displayEnd := s.flat)) + [RowPlan(s.flat, s.flat, [])];
            Built(rows', Broken(s, at), width, 0) && !Padded(rows'[|rows'| - 1].fragments)
  {
  }

  /** Cells that fit on one row are laid out together. */
  lemma {:induction false} ChunkLaid(s: Laid, n: nat, at: nat, width: nat)
    requires s.col + n <= width
    ensures Lay(s, Units(n, at), width) == s.(col := s.col + n, flat := s.flat + n)
    decreases n
  {
    if n > 0 {
      assert Units(n, at)[1..] == Units(n - 1, at);
      ChunkLaid(s.(col := s.col + 1, flat := s.flat + 1), n - 1, at, width);
    }
  }

  lemma ChunkThenRest(s: Laid, take: nat, rest: nat, at: nat, width: nat)
    ensures Lay(Lay(s, Units(take, at), width), Units(rest, at), width) == Lay(s, Units(take + rest, at), width)
  {
    UnitsSplit(take, rest, at);
    LayConcat(s, Units(take, at), Units(rest, at), width);
  }

  lemma UnitsSplit(a: nat, b: nat, at: nat)
    ensures Units(a + b, at) == Units(a, at) + Units(b, at)
  {
  }

  /** Breaking early, before the cells of a full row's successor, changes nothing. */
  lemma BreakFirst(s: Laid, n: nat, at: nat, width: nat)
    requires width >= 1 && n >= 1 && s.col >= width
    ensures Lay(s, Units(n, at), width) == Lay(Broken(s, at), Units(n, at), width)
  {
  }

  class RowBuilder {
    const width: nat
    var rows: seq<RowPlan>
    var rowColumn: nat
    var flatDisplay: nat
    var contentDisplay: nat
    /** The cell-by-cell layout this builder stands for. */
    ghost var laid: Laid
    /** The cells shown so far. */
    ghost var shown: seq<Cell>

    /** In step with the layout, at `open` columns of the last row. */
    ghost predicate At(open: nat)
      reads this
    {
      width >= 1 && Built(rows, laid, width, open) && rowColumn == open && flatDisplay == laid.flat && CellsOf(rows)
        == shown
    }

    ghost predicate Valid()
      reads this
    {
      At(laid.col) && !Padded(rows[|rows| - 1].fragments)
    }

    constructor (width: nat)
      requires width >= 1
      ensures Valid() && this.width == width && laid == TOP && contentDisplay == 0 && shown == []
    {
      this.width, rowColumn, flatDisplay, contentDisplay := width, 0, 0, 0;
      rows := [RowPlan(0, 0, [])];
      laid, shown := TOP, [];
    }

    method NextRow(ghost at: nat)
      requires At(rowColumn) && rowColumn >= width
      modifies this`rows, this`rowColumn, this`laid
      ensures Valid() && laid == Broken(old(laid), at)
      ensures rows[|rows| - 1].fragments == []
    {
      EmptyRowCells(rows, flatDisplay);
      NextBuilt(rows, laid, width, rowColumn, at);
      rows := WithLast(rows, rows[|rows| - 1].(displayEnd := flatDisplay)) + [RowPlan(flatDisplay, flatDisplay, [])];
      rowColumn := 0;
      laid := Broken(laid, at);
    }

    method PadCurrentRow()
      requires Valid()
      modifies this`rows, this`rowColumn
      ensures At(rowColumn) && rowColumn >= width
    {
      var cells := if width > rowColumn then width - rowColumn else 0;
      if cells > 0 {
        var f := Fragment(cells, rowColumn, flatDisplay, Padding);
        PadBuilt(rows, laid, width, rowColumn, f);
        PushedCells(rows, f);
        rows := WithLast(rows, rows[|rows| - 1].(fragments := Pushed(rows[|rows| - 1].fragments, f)));
        rowColumn := rowColumn + cells;
      }
    }

    method PushPlan(f: Fragment)
      requires Valid() && f.rowColumn == rowColumn && f.displayStart == flatDisplay && !f.kind.Padding?
      requires rowColumn + f.cells <= width || rows[|rows| - 1].fragments == []
      modifies this`rows, this`rowColumn, this`flatDisplay, this`laid, this`shown
      ensures Valid() && laid == Widened(old(laid), f.cells)
      ensures shown == old(shown) + KindCells(f.kind, f.cells)
    {
      PushedCells(rows, f);
      ghost var t := Widened(laid, f.cells);
      PushBuilt(rows, laid, t, width, rowColumn, f);
      rows := WithLast(rows, rows[|rows| - 1].(fragments := Pushed(rows[|rows| - 1].fragments, f)));
      rowColumn, flatDisplay := rowColumn + f.cells, flatDisplay + f.cells;
      laid, shown := t, shown + KindCells(f.kind, f.cells);
    }

    /** As many of the cells as the row holds, on a new row if it holds none. */
    method PushChunk(cells: nat, kind: Kind, ghost at: nat) returns (take: nat)
      requires Valid() && cells >= 1 && !kind.Padding?
      modifies this`rows, this`rowColumn, this`flatDisplay, this`laid, this`shown
      ensures Valid() && 1 <= take <= cells
      ensures laid == Lay(old(laid), Units(take, at), width)
      ensures shown == old(shown) + KindCells(kind, take)
    {
      if rowColumn >= width {
        NextRow(at);
      }
      take := if cells <= width - rowColumn then cells else width - rowColumn;
      ChunkLaid(laid, take, at, width);
      BreakFirstIfFull(old(laid), take, at, width);
      PushPlan(Fragment(take, rowColumn, flatDisplay, kind));
    }

    /** All but `cells` of `cells0` cells are placed, from a layout before. */
    ghost predicate Gone(first: Laid, cells0: nat, cells: nat, at: nat)
      reads this
    {
      Valid() && cells <= cells0 && Lay(first, Units(cells0, at), width) == Lay(laid, Units(cells, at), width)
    }

    /** One row of them. */
    method PushPart(cells0: nat, cells: nat, kind: Kind, ghost at: nat, ghost first: Laid) returns (take: nat)
      requires Gone(first, cells0, cells, at) && cells >= 1 && !kind.Padding?
      modifies this`rows, this`rowColumn, this`flatDisplay, this`laid, this`shown
      ensures 1 <= take <= cells && Gone(first, cells0, cells - take, at)
      ensures shown == old(shown) + KindCells(kind, take)
    {
      ghost var before := laid;
      take := PushChunk(cells, kind, at);
      ChunkThenRest(before, take, cells - take, at, width);
    }

    method PushInline(index: nat, cells0: nat, ghost at: nat)
      requires Valid()
      modifies this`rows, this`rowColumn, this`flatDisplay, this`laid, this`shown
      ensures Valid() && laid == Lay(old(laid), Units(cells0, at), width)
      ensures shown == old(shown) + KindCells(Inline(index, 0), cells0)
    {
      var cells: nat, offset: nat := cells0, 0;
      ghost var first, before := laid, shown;
      while cells > 0
        invariant Gone(first, cells0, cells, at) && offset == cells0 - cells
        invariant shown == before + KindCells(Inline(index, 0), offset)
        decreases cells
      {
        var take := PushPart(cells0, cells, Inline(index, offset), at, first);
        InlineCellsNext(before, index, offset, take);
        offset, cells := offset + take, cells - take;
      }
    }

    /** The tab base moves by all cells of the tab, the rows as they are placed. */
    method PushTab(cells0: nat, ghost at: nat)
      requires Valid()
      modifies this`rows, this`rowColumn, this`flatDisplay, this`laid, this`contentDisplay, this`shown
      ensures Valid() && laid == Lay(old(laid), Units(cells0, at), width)
      ensures contentDisplay == old(contentDisplay) + cells0
      ensures shown == old(shown) + KindCells(TabCells, cells0)
    {
      PushTabCells(cells0, at);
      contentDisplay := contentDisplay + cells0;
    }

    method PushTabCells(cells0: nat, ghost at: nat)
      requires Valid()
      modifies this`rows, this`rowColumn, this`flatDisplay, this`laid, this`shown
      ensures Valid() && laid == Lay(old(laid), Units(cells0, at), width)
      ensures shown == old(shown) + KindCells(TabCells, cells0)
    {
      var cells: nat, placed: nat := cells0, 0;
      ghost var first, before := laid, shown;
      while cells > 0
        invariant Gone(first, cells0, cells, at) && placed == cells0 - cells
        invariant shown == before + KindCells(TabCells, placed)
        decreases cells
      {
        var take := PushPart(cells0, cells, TabCells, at, first);
        TabCellsNext(before, placed, take);
        placed, cells := placed + take, cells - take;
      }
    }

    /** A glyph goes whole on the next row when it does not fit, after padding. */
    method PushAtomic(cells: nat, kind: Kind, ghost at: nat)
      requires Valid() && !kind.Padding?
      modifies this
      ensures Valid() && laid == Step(old(laid), Atom(cells, at), width)
      ensures contentDisplay == old(contentDisplay) + cells
      ensures shown == old(shown) + KindCells(kind, cells)
    {
      StepIs(laid, cells, at, width);
      MakeRoom(cells, at);
      PushPlan(Fragment(cells, rowColumn, flatDisplay, kind));
      contentDisplay := contentDisplay + cells;
    }

    method MakeRoom(cells: nat, ghost at: nat)
      requires Valid()
      modifies this`rows, this`rowColumn, this`laid
      ensures Valid()
      ensures laid == if old(laid).col + cells > width then Broken(old(laid), at) else old(laid)
      ensures rowColumn + cells <= width || rows[|rows| - 1].fragments == []
    {
      if rowColumn + cells > width {
        PadCurrentRow();
        NextRow(at);
      }
    }

    /** The rows cover the composed line without gap or overlap. */
    method Finish() returns (r: seq<RowPlan>)
      requires Valid()
      ensures Complete(r, laid, width) && CellsOf(r) == shown
    {
      SameRowCells(rows, flatDisplay);
      r := WithLast(rows, rows[|rows| - 1].(displayEnd := flatDisplay));
    }
  }

  lemma StepIs(s: Laid, cells: nat, at: nat, width: nat)
    ensures Step(s, Atom(cells, at), width) == Widened(if s.col + cells > width then Broken(s, at) else s, cells)
  {
  }

  lemma BreakFirstIfFull(s: Laid, n: nat, at: nat, width: nat)
    requires width >= 1 && n >= 1
    ensures s.col >= width ==> Lay(s, Units(n, at), width) == Lay(Broken(s, at), Units(n, at), width)
  {
    if s.col >= width {
      BreakFirst(s, n, at, width);
    }
  }

  /** All rows of a line: contiguous display ranges, every row but the last full. */
  predicate Complete(rows: seq<RowPlan>, s: Laid, width: nat) {
    Built(rows, s, width, s.col) && rows[|rows| - 1].displayEnd == s.flat && !Padded(rows[|rows| - 1].fragments)
  }

  method PushRuns(b: RowBuilder, runs: seq<Run>, from: nat, to: nat, ghost at: nat)
    requires b.Valid() && from <= to <= |runs|
    modifies b`rows, b`rowColumn, b`flatDisplay, b`laid, b`shown
    ensures b.Valid() && b.laid == Lay(old(b.laid), RunAtoms(runs, from, to, at), b.width)
    ensures b.shown == old(b.shown) + RunCells(runs, from, to)
  {
    ghost var first, shown := b.laid, b.shown;
    for k := from to to
      invariant b.Valid() && b.shown == shown + RunCells(runs, from, k)
      invariant Lay(first, RunAtoms(runs, from, to, at), b.width) == Lay(b.laid, RunAtoms(runs, k, to, at), b.width)
    {
      RunsShown(shown, runs, from, k);
      PushRun(b, runs, k, to, at);
    }
  }

  method PushRun(b: RowBuilder, runs: seq<Run>, k: nat, to: nat, ghost at: nat)
    requires b.Valid() && k < to <= |runs|
    modifies b`rows, b`rowColumn, b`flatDisplay, b`laid, b`shown
    ensures b.Valid()
    ensures Lay(old(b.laid), RunAtoms(runs, k, to, at), b.width) == Lay(b.laid, RunAtoms(runs, k + 1, to, at), b.width)
    ensures b.shown == old(b.shown) + KindCells(Inline(k, 0), runs[k].width)
  {
    LayConcat(b.laid, Units(runs[k].width, at), RunAtoms(runs, k + 1, to, at), b.width);
    b.PushInline(k, runs[k].width, at);
  }

  method PushCluster(b: RowBuilder, cs: seq<Cluster>, k: nat, tab: nat)
    requires b.Valid() && k < |cs| && tab >= 1 && b.contentDisplay == DisplayStart(cs, k, tab)
    modifies b
    ensures b.Valid() && b.laid == Lay(old(b.laid), ClusterAtoms(cs, k, tab), b.width)
    ensures b.contentDisplay == DisplayStart(cs, k + 1, tab)
    ensures b.shown == old(b.shown) + ClusterCells(cs, k, tab)
  {
    if cs[k].tab {
      b.PushTab(tab - b.contentDisplay % tab, CharStart(cs, k));
    } else {
      assert [Atom(cs[k].width, CharStart(cs, k))][1..] == [];
      b.PushAtomic(cs[k].width, Text, CharStart(cs, k));
    }
  }

  /** After `k` clusters and `used` decorations, at character `charIdx` and content
      column `column`, the layout has come to `now`. */
  ghost predicate Come(first: Laid, now: Laid, cs: seq<Cluster>, runs: seq<Run>, tab: nat, width: nat,
                       k: nat, used: nat, charIdx: nat, column: nat) {
    k <= |cs| && tab >= 1 && used <= |runs| && charIdx == CharStart(cs, k) && column == DisplayStart(cs, k, tab) &&
    Lay(first, Content(cs, runs, tab), width) == Lay(now, ContentFrom(cs, runs, tab, k, used), width) &&
    UsedFrom(cs, runs, 0, 0) == UsedFrom(cs, runs, k, used)
  }

  /** A cluster after the decorations due at it. */
  method PushWithDue(b: RowBuilder, cs: seq<Cluster>, k: nat, tab: nat, runs: seq<Run>, used: nat, charIdx: nat)
      returns (due: nat)
    requires b.Valid() && k < |cs| && tab >= 1 && used <= |runs|
    requires charIdx == CharStart(cs, k) && b.contentDisplay == DisplayStart(cs, k, tab)
    modifies b
    ensures b.Valid() && due == Due(runs, used, charIdx) && b.contentDisplay == DisplayStart(cs, k + 1, tab)
    ensures b.laid
            == Lay(Lay(old(b.laid), RunAtoms(runs, used, due, charIdx), b.width), ClusterAtoms(cs, k, tab), b.width)
    ensures b.shown == old(b.shown) + RunCells(runs, used, due) + ClusterCells(cs, k, tab)
  {
    due := DueRuns(runs, used, charIdx);
    PushRuns(b, runs, used, due, charIdx);
    PushCluster(b, cs, k, tab);
  }

  method PushDue(b: RowBuilder, cs: seq<Cluster>, k: nat, tab: nat, runs: seq<Run>, used: nat, charIdx: nat,
                 ghost first: Laid)
      returns (due: nat)
    requires b.Valid() && k < |cs| && Come(first, b.laid, cs, runs, tab, b.width, k, used, charIdx, b.contentDisplay)
    modifies b
    ensures b.Valid() && due == Due(runs, used, CharStart(cs, k))
    ensures Come(first, b.laid, cs, runs, tab, b.width, k + 1, due, charIdx + cs[k].chars, b.contentDisplay)
    ensures b.shown == old(b.shown) + RunCells(runs, used, due) + ClusterCells(cs, k, tab)
  {
    LayCluster(b.laid, cs, runs, tab, k, used, b.width);
    due := PushWithDue(b, cs, k, tab, runs, used, charIdx);
  }

  /** The clusters from `k` on are left to be placed, and their cells to be shown. */
  ghost predicate ContentLeft(b: RowBuilder, first: Laid, shown: seq<Cell>, cs: seq<Cluster>, runs: seq<Run>, tab: nat,
                              k: nat, used: nat, charIdx: nat)
    reads b
  {
    b.Valid() && Followed(shown, b.shown, cs, runs, tab, k, used) &&
    Come(first, b.laid, cs, runs, tab, b.width, k, used, charIdx, b.contentDisplay)
  }

  method PushNext(b: RowBuilder, cs: seq<Cluster>, k: nat, tab: nat, runs: seq<Run>, used: nat, charIdx: nat,
                  ghost first: Laid, ghost shown: seq<Cell>)
      returns (due: nat)
    requires k < |cs| && ContentLeft(b, first, shown, cs, runs, tab, k, used, charIdx)
    modifies b
    ensures ContentLeft(b, first, shown, cs, runs, tab, k + 1, due, charIdx + cs[k].chars)
  {
    FollowedNext(shown, b.shown, cs, runs, tab, k, used);
    due := PushDue(b, cs, k, tab, runs, used, charIdx, first);
  }

  lemma NothingLeft(b: RowBuilder, first: Laid, shown: seq<Cell>, cs: seq<Cluster>, runs: seq<Run>, tab: nat, used: nat,
                    charIdx: nat)
    requires ContentLeft(b, first, shown, cs, runs, tab, |cs|, used, charIdx)
    ensures b.laid == Lay(first, Content(cs, runs, tab), b.width) && used == UsedFrom(cs, runs, 0, 0)
    ensures b.shown == shown + ContentCells(cs, runs, tab, 0, 0)
  {
    FollowedAll(shown, b.shown, cs, runs, tab, used);
  }

  method PushContent(b: RowBuilder, cs: seq<Cluster>, tab: nat, runs: seq<Run>) returns (used: nat)
    requires b.Valid() && tab >= 1 && b.contentDisplay == 0
    modifies b
    ensures b.Valid() && b.laid == Lay(old(b.laid), Content(cs, runs, tab), b.width)
    ensures used == UsedFrom(cs, runs, 0, 0)
    ensures b.shown == old(b.shown) + ContentCells(cs, runs, tab, 0, 0)
  {
    used := 0;
    var charIdx: nat := 0;
    ghost var first, shown := b.laid, b.shown;
    for k := 0 to |cs|
      invariant ContentLeft(b, first, shown, cs, runs, tab, k, used, charIdx)
    {
      used := PushNext(b, cs, k, tab, runs, used, charIdx, first, shown);
      charIdx := charIdx + cs[k].chars;
    }
    NothingLeft(b, first, shown, cs, runs, tab, used, charIdx);
  }

  method PushLine(b: RowBuilder, cs: seq<Cluster>, tab: nat, runs: seq<Run>)
    requires b.Valid() && tab >= 1 && b.contentDisplay == 0 && b.laid == TOP && b.shown == []
    modifies b
    ensures b.Valid() && b.laid == LineLayout(cs, runs, tab, b.width) && b.shown == LineCells(cs, runs, tab)
  {
    LayConcat(TOP, Content(cs, runs, tab), Trailing(cs, runs), b.width);
    ContentThenTrailing(cs, runs, tab);
    var used := PushContent(b, cs, tab, runs);
    PushRuns(b, runs, used, |runs|, CharStart(cs, |cs|));
  }

  /** `build_rich_rows`: the rows of the cell-by-cell layout, showing the cells of the line. */
  method BuildRichRows(cs: seq<Cluster>, width: nat, tab: nat, runs: seq<Run>) returns (rows: seq<RowPlan>)
    requires width >= 1 && tab >= 1
    ensures Complete(rows, LineLayout(cs, runs, tab, width), width)
    ensures CellsOf(rows) == LineCells(cs, runs, tab)
  {
    var b := new RowBuilder(width);
    PushLine(b, cs, tab, runs);
    rows := b.Finish();
  }
}
