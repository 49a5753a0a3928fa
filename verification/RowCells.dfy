/** The rows of a laid-out line and the cells they show (ovim-core/src/line_layout.rs). */
module RowCells {
  import opened Basics
  import opened Display
  import opened Wraps

  datatype Kind = Text | TabCells | Inline(index: nat, cellOffset: nat) | Padding

  datatype Fragment = Fragment(cells: nat, rowColumn: nat, displayStart: nat, kind: Kind)

  datatype RowPlan = RowPlan(displayStart: nat, displayEnd: nat, fragments: seq<Fragment>)

  /** Adjacent text is one fragment. */
  function Pushed(fs: seq<Fragment>, f: Fragment): seq<Fragment> {
    if f.kind.Text? && fs != [] && fs[|fs| - 1].kind.Text? &&
       fs[|fs| - 1].rowColumn + fs[|fs| - 1].cells == f.rowColumn &&
       fs[|fs| - 1].displayStart + fs[|fs| - 1].cells == f.displayStart
    then fs[|fs| - 1 := fs[|fs| - 1].(cells := fs[|fs| - 1].cells + f.cells)]
    else fs + [f]
  }

  function WithLast(rows: seq<RowPlan>, row: RowPlan): seq<RowPlan>
    requires rows != []
  {
    rows[|rows| - 1 := row]
  }

  // ----- cells shown --------------------------------------------------------------------------

  /** What one cell shows: part of a glyph, part of a tab, or a cell of a decoration. */
  datatype Cell = Glyph | Tab | Decoration(index: nat, offset: nat)

  /** What cell `i` of a kind shows. */
  function CellOf(kind: Kind, i: nat): Cell {
    match kind
    case Inline(index, offset) => Decoration(index, offset + i)
    case TabCells => Tab
    case _ => Glyph
  }

  /** The cells that `n` cells of a kind show; padding shows nothing. */
  function KindCells(kind: Kind, n: nat): (r: seq<Cell>)
    ensures |r| == if kind.Padding? then 0 else n
  {
    if n == 0 || kind.Padding? then [] else KindCells(kind, n - 1) + [CellOf(kind, n - 1)]
  }

  lemma {:induction false} KindCellsSplit(kind: Kind, a: nat, b: nat)
    requires kind.Text? || kind.TabCells?
    ensures KindCells(kind, a + b) == KindCells(kind, a) + KindCells(kind, b)
  {
    if b > 0 {
      KindCellsSplit(kind, a, b - 1);
    }
  }

  lemma {:induction false} InlineCellsSplit(index: nat, a: nat, b: nat)
    ensures KindCells(Inline(index, 0), a + b) == KindCells(Inline(index, 0), a) + KindCells(Inline(index, a), b)
  {
    if b > 0 {
      InlineCellsSplit(index, a, b - 1);
    }
  }

  function FragmentsCells(fs: seq<Fragment>): seq<Cell> {
    if fs == [] then [] else FragmentsCells(fs[..|fs| - 1]) + KindCells(fs[|fs| - 1].kind, fs[|fs| - 1].cells)
  }

  /** All cells the rows show, in order. */
  function CellsOf(rows: seq<RowPlan>): seq<Cell> {
    if rows == [] then [] else CellsOf(rows[..|rows| - 1]) + FragmentsCells(rows[|rows| - 1].fragments)
  }

  /** The cells of the decorations `from` to `to`, each from its first to its last. */
  function RunCells(runs: seq<Run>, from: nat, to: nat): seq<Cell>
    requires from <= to <= |runs|
    decreases |runs| - from
  {
    if from == to then [] else KindCells(Inline(from, 0), runs[from].width) + RunCells(runs, from + 1, to)
  }

  function ClusterCells(cs: seq<Cluster>, k: nat, tab: nat): seq<Cell>
    requires k < |cs| && tab >= 1
  {
    if cs[k].tab then KindCells(TabCells, Cells(cs[k], DisplayStart(cs, k, tab), tab))
    else KindCells(Text, cs[k].width)
  }

  /** The cells of the clusters from `k` on, each after the decorations due at it. */
  function ContentCells(cs: seq<Cluster>, runs: seq<Run>, tab: nat, k: nat, used: nat): seq<Cell>
    requires k <= |cs| && used <= |runs| && tab >= 1
    decreases |cs| - k
  {
    if k == |cs| then []
    else
      var due := Due(runs, used, CharStart(cs, k));
      RunCells(runs, used, due) + (ClusterCells(cs, k, tab) + ContentCells(cs, runs, tab, k + 1, due))
  }

  /** The cells of a line with its decorations. */
  function LineCells(cs: seq<Cluster>, runs: seq<Run>, tab: nat): seq<Cell>
    requires tab >= 1
  {
    ContentCells(cs, runs, tab, 0, 0) + RunCells(runs, UsedFrom(cs, runs, 0, 0), |runs|)
  }

  lemma PushedFragmentCells(fs: seq<Fragment>, f: Fragment)
    ensures FragmentsCells(Pushed(fs, f)) == FragmentsCells(fs) + KindCells(f.kind, f.cells)
  {
    var r := Pushed(fs, f);
    assert r[..|r| - 1] == if |r| == |fs| then fs[..|fs| - 1] else fs;
    if |r| == |fs| {
      KindCellsSplit(Text, fs[|fs| - 1].cells, f.cells);
      Associate(FragmentsCells(fs[..|fs| - 1]), KindCells(Text, fs[|fs| - 1].cells), KindCells(Text, f.cells));
    }
  }

  lemma LastRowCells(rows: seq<RowPlan>, row: RowPlan)
    requires rows != []
    ensures CellsOf(WithLast(rows, row)) == CellsOf(rows[..|rows| - 1]) + FragmentsCells(row.fragments)
  {
    assert WithLast(rows, row)[..|rows| - 1] == rows[..|rows| - 1];
  }

  /** A fragment pushed adds its cells. */
  lemma PushedCells(rows: seq<RowPlan>, f: Fragment)
    requires rows != []
    ensures var last := rows[|rows| - 1];
            CellsOf(WithLast(rows, last.(fragments := Pushed(last.fragments, f))))
            == CellsOf(rows) + KindCells(f.kind, f.cells)
  {
    var last := rows[|rows| - 1];
    LastRowCells(rows, last.(fragments := Pushed(last.fragments, f)));
    PushedFragmentCells(last.fragments, f);
    Associate(CellsOf(rows[..|rows| - 1]), FragmentsCells(last.fragments), KindCells(f.kind, f.cells));
  }

  lemma SameRowCells(rows: seq<RowPlan>, end: nat)
    requires rows != []
    ensures CellsOf(WithLast(rows, rows[|rows| - 1].(displayEnd := end))) == CellsOf(rows)
  {
    LastRowCells(rows, rows[|rows| - 1].(displayEnd := end));
  }

  /** Closing a row and opening another shows nothing more. */
  lemma EmptyRowCells(rows: seq<RowPlan>, end: nat)
    requires rows != []
    ensures CellsOf(WithLast(rows, rows[|rows| - 1].(displayEnd := end)) + [RowPlan(end, end, [])]) == CellsOf(rows)
  {
    var closed := WithLast(rows, rows[|rows| - 1].(displayEnd := end));
    SameRowCells(rows, end);
    assert (closed + [RowPlan(end, end, [])])[..|closed|] == closed;
  }

  lemma InlineCellsNext(shown: seq<Cell>, index: nat, offset: nat, take: nat)
    ensures (shown + KindCells(Inline(index, 0), offset)) + KindCells(Inline(index, offset), take)
            == shown + KindCells(Inline(index, 0), offset + take)
  {
    InlineCellsSplit(index, offset, take);
    Associate(shown, KindCells(Inline(index, 0), offset), KindCells(Inline(index, offset), take));
  }

  lemma TabCellsNext(shown: seq<Cell>, n: nat, take: nat)
    ensures (shown + KindCells(TabCells, n)) + KindCells(TabCells, take) == shown + KindCells(TabCells, n + take)
  {
    KindCellsSplit(TabCells, n, take);
    Associate(shown, KindCells(TabCells, n), KindCells(TabCells, take));
  }

  lemma {:induction false} RunCellsNext(runs: seq<Run>, from: nat, k: nat)
    requires from <= k < |runs|
    ensures RunCells(runs, from, k + 1) == RunCells(runs, from, k) + KindCells(Inline(k, 0), runs[k].width)
    decreases k - from
  {
    if from < k {
      RunCellsNext(runs, from + 1, k);
      Associate(KindCells(Inline(from, 0), runs[from].width), RunCells(runs, from + 1, k),
                KindCells(Inline(k, 0), runs[k].width));
    }
  }

  /** One decoration more. */
  lemma RunsShown(shown: seq<Cell>, runs: seq<Run>, from: nat, k: nat)
    requires from <= k < |runs|
    ensures (shown + RunCells(runs, from, k)) + KindCells(Inline(k, 0), runs[k].width)
            == shown + RunCells(runs, from, k + 1)
  {
    RunCellsNext(runs, from, k);
    Associate(shown, RunCells(runs, from, k), KindCells(Inline(k, 0), runs[k].width));
  }

  lemma FollowedAll(shown: seq<Cell>, now: seq<Cell>, cs: seq<Cluster>, runs: seq<Run>, tab: nat, used: nat)
    requires Followed(shown, now, cs, runs, tab, |cs|, used)
    ensures now == shown + ContentCells(cs, runs, tab, 0, 0)
  {
  }

  /** The content, then the decorations that trail it. */
  lemma ContentThenTrailing(cs: seq<Cluster>, runs: seq<Run>, tab: nat)
    requires tab >= 1
    ensures ([] + ContentCells(cs, runs, tab, 0, 0)) + RunCells(runs, UsedFrom(cs, runs, 0, 0), |runs|)
            == LineCells(cs, runs, tab)
  {
  }

  /** What is shown so far and what is left are all of the content. */
  predicate Followed(shown: seq<Cell>, now: seq<Cell>, cs: seq<Cluster>, runs: seq<Run>, tab: nat, k: nat, used: nat) {
    k <= |cs| && used <= |runs| && tab >= 1 &&
    shown + ContentCells(cs, runs, tab, 0, 0) == now + ContentCells(cs, runs, tab, k, used)
  }

  lemma FollowedNext(shown: seq<Cell>, now: seq<Cell>, cs: seq<Cluster>, runs: seq<Run>, tab: nat, k: nat, used: nat)
    requires k < |cs| && Followed(shown, now, cs, runs, tab, k, used)
    ensures var due := Due(runs, used, CharStart(cs, k));
            Followed(shown, now + RunCells(runs, used, due) + ClusterCells(cs, k, tab), cs, runs, tab, k + 1, due)
  {
    var due := Due(runs, used, CharStart(cs, k));
    var a, b, c := RunCells(runs, used, due), ClusterCells(cs, k, tab), ContentCells(cs, runs, tab, k + 1, due);
    Associate(now, a, b + c);
    Associate(now + a, b, c);
  }
}
