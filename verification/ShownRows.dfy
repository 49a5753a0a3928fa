/** What each visual row shows of its line (ovim-core/src/line_layout.rs). */
module ShownRows {
  import opened Basics
  import opened Display
  import opened Wraps
  import opened RowCells
  import opened RowBuilders

  lemma TiledInit(fs: seq<Fragment>, start: nat)
    requires Tiled(fs, start) && fs != []
    ensures Tiled(fs[..|fs| - 1], start) && !Padded(fs[..|fs| - 1])
    ensures RowWidth(fs[..|fs| - 1]) == fs[|fs| - 1].rowColumn
  {
    var init := fs[..|fs| - 1];
    if init != [] {
      assert fs[|fs| - 1].rowColumn == fs[|fs| - 2].rowColumn + fs[|fs| - 2].cells;
    }
  }

  /** A row shows as many cells as it has, without its padding. */
  lemma {:induction false} CellsShown(fs: seq<Fragment>, start: nat)
    requires Tiled(fs, start)
    ensures |FragmentsCells(fs)| == Shown(fs)
  {
    if fs != [] {
      TiledInit(fs, start);
      CellsShown(fs[..|fs| - 1], start);
    }
  }

  lemma {:induction false} FirstStart(s: Laid, atoms: seq<Atom>, width: nat)
    requires s.starts != []
    ensures Lay(s, atoms, width).starts != [] && Lay(s, atoms, width).starts[0] == s.starts[0]
    decreases |atoms|
  {
    if atoms != [] {
      FirstStart(Step(s, atoms[0], width), atoms[1..], width);
    }
  }

  /** A row has as many cells as its display range, which begins where the layout says. */
  predicate Sized(row: RowPlan, start: nat) {
    row.displayStart == start && row.displayEnd == start + |FragmentsCells(row.fragments)|
  }

  lemma RowSize(rows: seq<RowPlan>, s: Laid, width: nat, r: nat)
    requires Complete(rows, s, width) && r < |rows|
    ensures r < |s.starts| && Sized(rows[r], s.starts[r])
    ensures r + 1 < |rows| ==> r + 1 < |s.starts| && rows[r].displayEnd == s.starts[r + 1]
  {
    if r + 1 < |rows| {
      assert Closed(rows[r], s.starts[r + 1], width);
    }
    CellsShown(rows[r].fragments, rows[r].displayStart);
  }

  lemma OneRowMore(rows: seq<RowPlan>, n: nat)
    requires n < |rows|
    ensures CellsOf(rows[..n + 1]) == CellsOf(rows[..n]) + FragmentsCells(rows[n].fragments)
  {
    assert rows[..n + 1][..n] == rows[..n];
  }

  /** The rows follow on from each other, from the first display column. */
  predicate Consecutive(rows: seq<RowPlan>) {
    (forall r :: 0 <= r < |rows| ==> Sized(rows[r], rows[r].displayStart)) &&
    (forall r :: 0 < r < |rows| ==> rows[r].displayStart == rows[r - 1].displayEnd) &&
    (rows != [] ==> rows[0].displayStart == 0)
  }

  lemma CompleteIsConsecutive(rows: seq<RowPlan>, s: Laid, width: nat)
    requires Complete(rows, s, width) && s.starts[0] == 0
    ensures Consecutive(rows)
  {
    forall r | 0 <= r < |rows| ensures Sized(rows[r], rows[r].displayStart) {
      RowSize(rows, s, width, r);
    }
    forall r | 0 < r < |rows| ensures rows[r].displayStart == rows[r - 1].displayEnd {
      RowSize(rows, s, width, r - 1);
      RowSize(rows, s, width, r);
    }
    RowSize(rows, s, width, 0);
  }

  /** The first `n` rows show the cells of the display columns before the next row. */
  lemma {:induction false} CellsBefore(rows: seq<RowPlan>, n: nat)
    requires Consecutive(rows) && n < |rows|
    ensures |CellsOf(rows[..n])| == rows[n].displayStart
  {
    if n > 0 {
      CellsBefore(rows, n - 1);
      OneRowMore(rows, n - 1);
      assert Sized(rows[n - 1], rows[n - 1].displayStart);
    }
  }

  lemma {:induction false} CellsGrow(rows: seq<RowPlan>, n: nat)
    requires n <= |rows|
    ensures CellsOf(rows[..n]) <= CellsOf(rows)
    decreases |rows| - n
  {
    if n < |rows| {
      CellsGrow(rows, n + 1);
      OneRowMore(rows, n);
    } else {
      assert rows[..n] == rows;
    }
  }

  lemma MiddleOf(all: seq<Cell>, a: seq<Cell>, b: seq<Cell>)
    requires a + b <= all
    ensures |a| + |b| <= |all| && all[|a|..|a| + |b|] == b
  {
    assert all[..|a + b|] == a + b;
  }

  lemma RowShows(rows: seq<RowPlan>, r: nat)
    requires Consecutive(rows) && r < |rows|
    ensures rows[r].displayStart <= rows[r].displayEnd <= |CellsOf(rows)|
    ensures FragmentsCells(rows[r].fragments) == CellsOf(rows)[rows[r].displayStart..rows[r].displayEnd]
  {
    CellsBefore(rows, r);
    OneRowMore(rows, r);
    CellsGrow(rows, r + 1);
    assert Sized(rows[r], rows[r].displayStart);
    MiddleOf(CellsOf(rows), CellsOf(rows[..r]), FragmentsCells(rows[r].fragments));
  }

  /** Every row of a line shows the cells of its display range, and no others: each cell of a
      glyph, tab or decoration stands where the layout put it. */
  lemma RowShowsItsRange(rows: seq<RowPlan>, cs: seq<Cluster>, runs: seq<Run>, tab: nat, width: nat, r: nat)
    requires tab >= 1 && Complete(rows, LineLayout(cs, runs, tab, width), width) && r < |rows|
    requires CellsOf(rows) == LineCells(cs, runs, tab)
    ensures rows[r].displayStart <= rows[r].displayEnd <= |LineCells(cs, runs, tab)|
    ensures FragmentsCells(rows[r].fragments) == LineCells(cs, runs, tab)[rows[r].displayStart..rows[r].displayEnd]
  {
    FirstStart(TOP, Content(cs, runs, tab) + Trailing(cs, runs), width);
    CompleteIsConsecutive(rows, LineLayout(cs, runs, tab, width), width);
    RowShows(rows, r);
  }
}
