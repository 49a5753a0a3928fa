/** The eager cursor walk: where a display column of the composed line is on screen
    (ovim-core/src/wrap.rs, `visual_position_for_flat_col`). It leaves a row as soon
    as the row is full, where the wrap walk waits for the next cell. */
module EagerWalks {
  import opened Display
  import opened Wraps

  /** The walk so far: the row, the cells used in it, and the display column. */
  datatype Cursor = Cursor(row: nat, col: nat, flat: nat)

  datatype Sought = Found(row: nat, col: nat) | Going(cursor: Cursor)

  /** A glyph that does not fit moves down before it is compared. */
  function Settled(c: Cursor, w: nat, width: nat): Cursor {
    if c.col + w > width then c.(row := c.row + 1, col := 0) else c
  }

  /** A row that has become full is left at once. */
  function Advanced(c: Cursor, w: nat, width: nat): Cursor {
    var col := c.col + w;
    if col >= width then Cursor(c.row + 1, 0, c.flat + w) else Cursor(c.row, col, c.flat + w)
  }

  function Scan(c: Cursor, atoms: seq<Atom>, width: nat, target: nat): Sought
    decreases |atoms|
  {
    if atoms == [] then Going(c)
    else
      var s := Settled(c, atoms[0].width, width);
      if s.flat == target then Found(s.row, s.col)
      else Scan(Advanced(s, atoms[0].width, width), atoms[1..], width, target)
  }

  function ScanOn(s: Sought, atoms: seq<Atom>, width: nat, target: nat): Sought {
    if s.Found? then s else Scan(s.cursor, atoms, width, target)
  }

  lemma {:induction false} ScanConcat(c: Cursor, a: seq<Atom>, b: seq<Atom>, width: nat, target: nat)
    ensures Scan(c, a + b, width, target) == ScanOn(Scan(c, a, width, target), b, width, target)
    decreases |a|
  {
    if a == [] {
      assert a + b == b;
    } else {
      assert (a + b)[1..] == a[1..] + b;
      var s := Settled(c, a[0].width, width);
      ScanConcat(Advanced(s, a[0].width, width), a[1..], b, width, target);
    }
  }

  /** Past everything: counted on from where the line ended. */
  function Beyond(c: Cursor, width: nat, target: nat): (nat, nat)
    requires width >= 1
  {
    if target <= c.flat then (c.row, c.col)
    else
      var final := c.col + (target - c.flat);
      (c.row + final / width, final % width)
  }

  /** Trailing decoration cells; the last of them does not leave its row. */
  function Trail(c: Cursor, remaining: nat, width: nat, target: nat): (nat, nat)
    requires width >= 1
    decreases remaining
  {
    if remaining == 0 then Beyond(c, width, target)
    else if c.flat == target then (c.row, c.col)
    else
      var next := Cursor(c.row, c.col + 1, c.flat + 1);
      Trail(if next.col >= width && remaining > 1 then Cursor(c.row + 1, 0, c.flat + 1) else next,
            remaining - 1, width, target)
  }

  const HOME: Cursor := Cursor(0, 0, 0)

  function Placed(content: seq<Atom>, trailing: nat, width: nat, target: nat): (nat, nat)
    requires width >= 1
  {
    var s := Scan(HOME, content, width, target);
    if s.Found? then (s.row, s.col) else Trail(s.cursor, trailing, width, target)
  }

  // ----- visual_position_for_flat_col ----------------------------------------------------

  /** The cells of a tab or decoration, compared one by one. */
  method WalkCells(cells: nat, at: nat, width: nat, target: nat, c: Cursor) returns (s: Sought)
    requires c.col < width
    ensures s == Scan(c, Units(cells, at), width, target)
    ensures s.Going? ==> s.cursor.col < width
  {
    var flat: nat, row: nat, col: nat := c.flat, c.row, c.col;
    for i := 0 to cells
      invariant col < width
      invariant Scan(c, Units(cells, at), width, target)
                == Scan(Cursor(row, col, flat), Units(cells - i, at), width, target)
    {
      assert Units(cells - i, at)[1..] == Units(cells - i - 1, at);
      if flat == target {
        return Found(row, col);
      }
      flat, col := flat + 1, col + 1;
      if col >= width {
        row, col := row + 1, 0;
      }
    }
    return Going(Cursor(row, col, flat));
  }

  method WalkRuns(runs: seq<Run>, from: nat, to: nat, at: nat, width: nat, target: nat, c: Cursor) returns (s: Sought)
    requires from <= to <= |runs| && c.col < width
    ensures s == Scan(c, RunAtoms(runs, from, to, at), width, target)
    ensures s.Going? ==> s.cursor.col < width
  {
    s := Going(c);
    for k := from to to
      invariant s.Going? && s.cursor.col < width
      invariant Scan(c, RunAtoms(runs, from, to, at), width, target)
                == Scan(s.cursor, RunAtoms(runs, k, to, at), width, target)
    {
      ScanConcat(s.cursor, Units(runs[k].width, at), RunAtoms(runs, k + 1, to, at), width, target);
      s := WalkCells(runs[k].width, at, width, target, s.cursor);
      if s.Found? {
        return;
      }
    }
  }

  method WalkCluster(cs: seq<Cluster>, k: nat, tab: nat, contentCol: nat, width: nat, target: nat, c: Cursor)
      returns (s: Sought, column: nat)
    requires k < |cs| && tab >= 1 && c.col < width && contentCol == DisplayStart(cs, k, tab)
    ensures s == Scan(c, ClusterAtoms(cs, k, tab), width, target)
    ensures s.Going? ==> s.cursor.col < width
    ensures column == DisplayStart(cs, k + 1, tab)
  {
    if cs[k].tab {
      var cells := tab - contentCol % tab;
      column := contentCol + cells;
      s := WalkCells(cells, CharStart(cs, k), width, target, c);
    } else {
      var cells := cs[k].width;
      column := contentCol + cells;
      var flat, row, col := c.flat, c.row, c.col;
      if col + cells > width {
        row, col := row + 1, 0;
      }
      if flat == target {
        return Found(row, col), column;
      }
      flat, col := flat + cells, col + cells;
      if col >= width {
        row, col := row + 1, 0;
      }
      assert [Atom(cells, CharStart(cs, k))][1..] == [];
      s := Going(Cursor(row, col, flat));
    }
  }

  lemma ScanCluster(c: Cursor, cs: seq<Cluster>, runs: seq<Run>, tab: nat, k: nat, used: nat, width: nat, target: nat)
    requires k < |cs| && used <= |runs| && tab >= 1
    ensures var due := Due(runs, used, CharStart(cs, k));
            Scan(c, ContentFrom(cs, runs, tab, k, used), width, target)
            == ScanOn(ScanOn(Scan(c, RunAtoms(runs, used, due, CharStart(cs, k)), width, target),
                             ClusterAtoms(cs, k, tab), width, target),
                      ContentFrom(cs, runs, tab, k + 1, due), width, target)
  {
    var due := Due(runs, used, CharStart(cs, k));
    var a, b := RunAtoms(runs, used, due, CharStart(cs, k)), ClusterAtoms(cs, k, tab);
    var r := ContentFrom(cs, runs, tab, k + 1, due);
    ScanConcat(c, a, b + r, width, target);
    var s := Scan(c, a, width, target);
    if s.Going? {
      ScanConcat(s.cursor, b, r, width, target);
    }
  }

  function TotalWidth(runs: seq<Run>, from: nat): nat
    requires from <= |runs|
    decreases |runs| - from
  {
    if from == |runs| then 0 else runs[from].width + TotalWidth(runs, from + 1)
  }

  method WalkTrailing(runs: seq<Run>, used: nat, width: nat, target: nat, c: Cursor) returns (row: nat, col: nat)
    requires used <= |runs| && width >= 1
    ensures (row, col) == Trail(c, TotalWidth(runs, used), width, target)
  {
    var flat := c.flat;
    row, col := c.row, c.col;
    var remaining := TotalWidth(runs, used);
    for k := used to |runs|
      invariant remaining == TotalWidth(runs, k)
      invariant Trail(c, TotalWidth(runs, used), width, target)
                == Trail(Cursor(row, col, flat), remaining, width, target)
    {
      for i := 0 to runs[k].width
        invariant remaining == runs[k].width - i + TotalWidth(runs, k + 1)
        invariant Trail(c, TotalWidth(runs, used), width, target)
                  == Trail(Cursor(row, col, flat), remaining, width, target)
      {
        if flat == target {
          return;
        }
        flat, col, remaining := flat + 1, col + 1, remaining - 1;
        if col >= width && remaining > 0 {
          row, col := row + 1, 0;
        }
      }
    }
    if target > flat {
      var final := col + (target - flat);
      if final >= width {
        row, col := row + final / width, final % width;
      } else {
        SmallQuotient(final, width);
        col := final;
      }
    }
  }

  lemma SmallQuotient(n: nat, width: nat)
    requires n < width
    ensures n / width == 0 && n % width == n
  {
  }

  method VisualPositionForFlatCol(cs: seq<Cluster>, target: nat, maxWidth: nat, tabWidth: nat, runs: seq<Run>)
      returns (row: nat, col: nat)
    ensures (row, col) == Placed(Content(cs, runs, AtLeastOne(tabWidth)), TotalWidth(runs, UsedFrom(cs, runs, 0, 0)),
                                 AtLeastOne(maxWidth), target)
  {
    var width, tab := AtLeastOne(maxWidth), AtLeastOne(tabWidth);
    var contentCol: nat, used: nat, charIdx: nat := 0, 0, 0;
    var s := Going(HOME);
    for k := 0 to |cs|
      invariant used <= |runs| && s.Going? && s.cursor.col < width
      invariant contentCol == DisplayStart(cs, k, tab) && charIdx == CharStart(cs, k)
      invariant Scan(HOME, Content(cs, runs, tab), width, target)
                == Scan(s.cursor, ContentFrom(cs, runs, tab, k, used), width, target)
      invariant UsedFrom(cs, runs, 0, 0) == UsedFrom(cs, runs, k, used)
    {
      ScanCluster(s.cursor, cs, runs, tab, k, used, width, target);
      var due := DueRuns(runs, used, charIdx);
      s := WalkRuns(runs, used, due, charIdx, width, target, s.cursor);
      if s.Found? {
        return s.row, s.col;
      }
      s, contentCol := WalkCluster(cs, k, tab, contentCol, width, target, s.cursor);
      if s.Found? {
        return s.row, s.col;
      }
      used := due;
      charIdx := charIdx + cs[k].chars;
    }
    row, col := WalkTrailing(runs, used, width, target, s.cursor);
  }
}
