/** Soft wrapping of a line with inline decorations (ovim-core/src/wrap.rs): the
    lazy walk that emits wrap points and the eager walk that places a cursor. */
module Wraps {
  import opened Display

  /** Virtual text `width` cells wide, shown before character `anchor`. */
  datatype Run = Run(anchor: nat, width: nat)

  /** What one row break can separate: a glyph, or one cell of a tab or decoration.
      `at` is the character a break before it is recorded at. */
  datatype Atom = Atom(width: nat, at: nat)

  function AtLeastOne(n: nat): (r: nat)
    ensures r >= 1 && (n >= 1 ==> r == n) && (n == 0 ==> r == 1)
  {
    if n >= 1 then n else 1
  }

  // ----- the line as atoms -----------------------------------------------------------

  function Units(n: nat, at: nat): (a: seq<Atom>)
    ensures |a| == n && forall k :: 0 <= k < n ==> a[k] == Atom(1, at)
  {
    if n == 0 then [] else [Atom(1, at)] + Units(n - 1, at)
  }

  function RunAtoms(runs: seq<Run>, from: nat, to: nat, at: nat): seq<Atom>
    requires from <= to <= |runs|
    decreases |runs| - from
  {
    if from == to then [] else Units(runs[from].width, at) + RunAtoms(runs, from + 1, to, at)
  }

  function ClusterAtoms(cs: seq<Cluster>, k: nat, tab: nat): seq<Atom>
    requires k < |cs| && tab >= 1
  {
    if cs[k].tab then Units(Cells(cs[k], DisplayStart(cs, k, tab), tab), CharStart(cs, k))
    else [Atom(cs[k].width, CharStart(cs, k))]
  }

  /** How many decorations have come due when character `col` is reached. */
  function Due(runs: seq<Run>, from: nat, col: nat): (to: nat)
    requires from <= |runs|
    ensures from <= to <= |runs|
    ensures forall k :: from <= k < to ==> runs[k].anchor <= col
    ensures to < |runs| ==> runs[to].anchor > col
    decreases |runs| - from
  {
    if from == |runs| || runs[from].anchor > col then from else Due(runs, from + 1, col)
  }

  /** Clusters from `k` on, each after the decorations due at it. */
  function ContentFrom(cs: seq<Cluster>, runs: seq<Run>, tab: nat, k: nat, used: nat): seq<Atom>
    requires k <= |cs| && used <= |runs| && tab >= 1
    decreases |cs| - k
  {
    if k == |cs| then []
    else
      var due := Due(runs, used, CharStart(cs, k));
      RunAtoms(runs, used, due, CharStart(cs, k)) + (ClusterAtoms(cs, k, tab) + ContentFrom(cs, runs, tab, k + 1, due))
  }

  /** Decorations used by the clusters from `k` on; the others trail the line. */
  function UsedFrom(cs: seq<Cluster>, runs: seq<Run>, k: nat, used: nat): (r: nat)
    requires k <= |cs| && used <= |runs|
    ensures used <= r <= |runs|
    decreases |cs| - k
  {
    if k == |cs| then used else UsedFrom(cs, runs, k + 1, Due(runs, used, CharStart(cs, k)))
  }

  function Content(cs: seq<Cluster>, runs: seq<Run>, tab: nat): seq<Atom>
    requires tab >= 1
  {
    ContentFrom(cs, runs, tab, 0, 0)
  }

  function Trailing(cs: seq<Cluster>, runs: seq<Run>): seq<Atom> {
    RunAtoms(runs, UsedFrom(cs, runs, 0, 0), |runs|, CharStart(cs, |cs|))
  }

  // ----- laying atoms out -----------------------------------------------------------------

  /** Cells used in the current row, cells laid out in all, the display column each
      row starts at, and the characters breaks were recorded at. */
  datatype Laid = Laid(col: nat, flat: nat, starts: seq<nat>, points: seq<nat>)

  const TOP: Laid := Laid(0, 0, [0], [])

  function Broken(s: Laid, at: nat): Laid {
    s.(col := 0, starts := s.starts + [s.flat], points := s.points + [at])
  }

  /** An atom goes where it fits, else on a new row. */
  function Step(s: Laid, a: Atom, width: nat): Laid {
    var t := if s.col + a.width > width then Broken(s, a.at) else s;
    t.(col := t.col + a.width, flat := t.flat + a.width)
  }

  function Lay(s: Laid, atoms: seq<Atom>, width: nat): Laid
    decreases |atoms|
  {
    if atoms == [] then s else Lay(Step(s, atoms[0], width), atoms[1..], width)
  }

  lemma {:induction false} LayConcat(s: Laid, a: seq<Atom>, b: seq<Atom>, width: nat)
    ensures Lay(s, a + b, width) == Lay(Lay(s, a, width), b, width)
    decreases |a|
  {
    if a == [] {
      assert a + b == b;
    } else {
      assert (a + b)[1..] == a[1..] + b;
      LayConcat(Step(s, a[0], width), a[1..], b, width);
    }
  }

  function LineLayout(cs: seq<Cluster>, runs: seq<Run>, tab: nat, width: nat): Laid
    requires tab >= 1
  {
    Lay(TOP, Content(cs, runs, tab) + Trailing(cs, runs), width)
  }

  // ----- compute_wrap_points_with_decorations ------------------------------------------------

  /** Cells one at a time, breaking before a cell when the row is full. */
  method WrapCells(cells: nat, at: nat, maxWidth: nat, width0: nat, points0: seq<nat>, ghost s: Laid)
      returns (width: nat, points: seq<nat>, ghost t: Laid)
    requires maxWidth >= 1 && s.col == width0 && s.points == points0
    ensures t == Lay(s, Units(cells, at), maxWidth) && t.col == width && t.points == points
  {
    width, points, t := width0, points0, s;
    for i := 0 to cells
      invariant t.col == width && t.points == points
      invariant Lay(s, Units(cells, at), maxWidth) == Lay(t, Units(cells - i, at), maxWidth)
    {
      assert Units(cells - i, at)[1..] == Units(cells - i - 1, at);
      t := Step(t, Atom(1, at), maxWidth);
      if width >= maxWidth {
        points := points + [at];
        width := 0;
      }
      width := width + 1;
    }
  }

  /** The cells of the decorations `from` to `to`. */
  method WrapRuns(runs: seq<Run>, from: nat, to: nat, at: nat, maxWidth: nat, width0: nat, points0: seq<nat>,
                  ghost s: Laid)
      returns (width: nat, points: seq<nat>, ghost t: Laid)
    requires from <= to <= |runs| && maxWidth >= 1 && s.col == width0 && s.points == points0
    ensures t == Lay(s, RunAtoms(runs, from, to, at), maxWidth) && t.col == width && t.points == points
  {
    width, points, t := width0, points0, s;
    for k := from to to
      invariant t.col == width && t.points == points
      invariant Lay(s, RunAtoms(runs, from, to, at), maxWidth) == Lay(t, RunAtoms(runs, k, to, at), maxWidth)
    {
      LayConcat(t, Units(runs[k].width, at), RunAtoms(runs, k + 1, to, at), maxWidth);
      width, points, t := WrapCells(runs[k].width, at, maxWidth, width, points, t);
    }
  }

  method WrapCluster(cs: seq<Cluster>, k: nat, tab: nat, contentCol: nat, charIdx: nat, maxWidth: nat,
                     width0: nat, points0: seq<nat>, ghost s: Laid)
      returns (width: nat, points: seq<nat>, column: nat, ghost t: Laid)
    requires k < |cs| && tab >= 1 && maxWidth >= 1 && s.col == width0 && s.points == points0
    requires contentCol == DisplayStart(cs, k, tab) && charIdx == CharStart(cs, k)
    ensures t == Lay(s, ClusterAtoms(cs, k, tab), maxWidth) && t.col == width && t.points == points
    ensures column == DisplayStart(cs, k + 1, tab)
  {
    if cs[k].tab {
      var cells := tab - contentCol % tab;
      width, points, t := WrapCells(cells, charIdx, maxWidth, width0, points0, s);
      column := contentCol + cells;
    } else {
      var cells := cs[k].width;
      t := Step(s, Atom(cells, charIdx), maxWidth);
      assert [Atom(cells, charIdx)][1..] == [];
      if width0 + cells > maxWidth {
        width, points := cells, points0 + [charIdx];
      } else {
        width, points := width0 + cells, points0;
      }
      column := contentCol + cells;
    }
  }

  lemma LayCluster(s: Laid, cs: seq<Cluster>, runs: seq<Run>, tab: nat, k: nat, used: nat, width: nat)
    requires k < |cs| && used <= |runs| && tab >= 1
    ensures var due := Due(runs, used, CharStart(cs, k));
            Lay(s, ContentFrom(cs, runs, tab, k, used), width)
            == Lay(Lay(Lay(s, RunAtoms(runs, used, due, CharStart(cs, k)), width), ClusterAtoms(cs, k, tab), width),
                   ContentFrom(cs, runs, tab, k + 1, due), width)
  {
    var due := Due(runs, used, CharStart(cs, k));
    var a, b := RunAtoms(runs, used, due, CharStart(cs, k)), ClusterAtoms(cs, k, tab);
    var c := ContentFrom(cs, runs, tab, k + 1, due);
    LayConcat(s, a, b + c, width);
    LayConcat(Lay(s, a, width), b, c, width);
  }

  method DueRuns(runs: seq<Run>, used: nat, charIdx: nat) returns (due: nat)
    requires used <= |runs|
    ensures due == Due(runs, used, charIdx)
  {
    due := used;
    while due < |runs| && runs[due].anchor <= charIdx
      invariant used <= due <= |runs|
      invariant Due(runs, used, charIdx) == Due(runs, due, charIdx)
    {
      due := due + 1;
    }
  }

  /** The character each row after the first begins at. */
  method ComputeWrapPoints(cs: seq<Cluster>, maxWidth0: nat, tabWidth0: nat, runs: seq<Run>) returns (points: seq<nat>)
    ensures points == LineLayout(cs, runs, AtLeastOne(tabWidth0), AtLeastOne(maxWidth0)).points
  {
    var maxWidth, tab := AtLeastOne(maxWidth0), AtLeastOne(tabWidth0);
    var width: nat, contentCol: nat, used: nat, charIdx: nat := 0, 0, 0, 0;
    points := [];
    ghost var s := TOP;
    LayConcat(TOP, Content(cs, runs, tab), Trailing(cs, runs), maxWidth);
    for k := 0 to |cs|
      invariant used <= |runs| && s.col == width && s.points == points
      invariant contentCol == DisplayStart(cs, k, tab) && charIdx == CharStart(cs, k)
      invariant Lay(TOP, Content(cs, runs, tab), maxWidth) == Lay(s, ContentFrom(cs, runs, tab, k, used), maxWidth)
      invariant UsedFrom(cs, runs, 0, 0) == UsedFrom(cs, runs, k, used)
    {
      LayCluster(s, cs, runs, tab, k, used, maxWidth);
      var due := DueRuns(runs, used, charIdx);
      width, points, s := WrapRuns(runs, used, due, charIdx, maxWidth, width, points, s);
      width, points, contentCol, s := WrapCluster(cs, k, tab, contentCol, charIdx, maxWidth, width, points, s);
      used := due;
      charIdx := charIdx + cs[k].chars;
    }
    width, points, s := WrapRuns(runs, used, |runs|, charIdx, maxWidth, width, points, s);
  }

  method VisualLineCount(cs: seq<Cluster>, maxWidth: nat, tabWidth: nat, runs: seq<Run>) returns (rows: nat)
    ensures rows == |LineLayout(cs, runs, AtLeastOne(tabWidth), AtLeastOne(maxWidth)).starts|
  {
    LayoutCounts(TOP, Content(cs, runs, AtLeastOne(tabWidth)) + Trailing(cs, runs), AtLeastOne(maxWidth));
    if cs == [] && runs == [] {
      return 1;
    }
    var points := ComputeWrapPoints(cs, maxWidth, tabWidth, runs);
    return |points| + 1;
  }

  /** One recorded break for every row after the first. */
  lemma {:induction false} LayoutCounts(s: Laid, atoms: seq<Atom>, width: nat)
    requires |s.starts| == |s.points| + 1
    ensures |Lay(s, atoms, width).starts| == |Lay(s, atoms, width).points| + 1
    decreases |atoms|
  {
    if atoms != [] {
      LayoutCounts(Step(s, atoms[0], width), atoms[1..], width);
    }
  }
}
