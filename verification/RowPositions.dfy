/** Where the eager walk and the rows' display ranges put a column, for glyphs of any
    width, in terms of the lazy layout. */
module RowPositions {
  import opened Search
  import opened Display
  import opened Wraps
  import opened EagerWalks

  /** The current row starts `col` cells back, and no row starts later than here. */
  predicate Anchored(s: Laid) {
    s.starts != [] && |s.points| == |s.starts| - 1 && s.flat == s.starts[|s.starts| - 1] + s.col &&
    (forall i :: 0 <= i < |s.starts| ==> s.starts[i] <= s.flat)
  }

  lemma {:induction false} LayAnchored(s: Laid, atoms: seq<Atom>, width: nat)
    requires Anchored(s)
    ensures Anchored(Lay(s, atoms, width)) && Lay(s, atoms, width).flat >= s.flat
    decreases |atoms|
  {
    if atoms != [] {
      LayAnchored(Step(s, atoms[0], width), atoms[1..], width);
    }
  }

  /** Where a cell of `w` columns is shown: on a new row if the row is full or the
      cell does not fit. */
  function Below(s: Laid, w: nat, width: nat): (nat, nat)
    requires s.starts != []
  {
    if s.col + w > width || s.col >= width then (|s.starts|, 0) else (|s.starts| - 1, s.col)
  }

  /** The row of a visible cell is the number of breaks emitted up to it. */
  lemma RowIsBreakCount(s: Laid, a: Atom, width: nat)
    requires Anchored(s) && a.width >= 1
    ensures Below(s, a.width, width).0 == |Step(s, a, width).points|
  {
  }

  // ----- the eager walk ---------------------------------------------------------------

  /** The row the walk leaves blank: a glyph wider than the view that meets a full row
      moves down once more. */
  function Blank(s: Laid, a: Atom, width: nat): nat {
    if s.col >= width && a.width > width then 1 else 0
  }

  function Blanks(s: Laid, atoms: seq<Atom>, width: nat): nat
    decreases |atoms|
  {
    if atoms == [] then 0 else Blank(s, atoms[0], width) + Blanks(Step(s, atoms[0], width), atoms[1..], width)
  }

  function Raised(c: Cursor, rows: nat): Cursor {
    c.(row := c.row + rows)
  }

  function Norm(s: Laid, width: nat): Cursor
    requires s.starts != []
  {
    Cursor(Below(s, 0, width).0, Below(s, 0, width).1, s.flat)
  }

  lemma StepAgrees(s: Laid, a: Atom, width: nat, rows: nat)
    requires s.starts != [] && width >= 1
    ensures Step(s, a, width).starts != []
    ensures Advanced(Settled(Raised(Norm(s, width), rows), a.width, width), a.width, width)
            == Raised(Norm(Step(s, a, width), width), rows + Blank(s, a, width))
    ensures var c := Settled(Raised(Norm(s, width), rows), a.width, width);
            c.row == Below(s, a.width, width).0 + rows + Blank(s, a, width) &&
            c.col == Below(s, a.width, width).1 && c.flat == s.flat
  {
  }

  /** Atoms that do not end in one without width. */
  predicate NoTail(atoms: seq<Atom>) {
    atoms == [] || atoms[|atoms| - 1].width > 0
  }

  lemma {:induction false} LayGrows(s: Laid, atoms: seq<Atom>, width: nat)
    requires NoTail(atoms) && atoms != []
    ensures Lay(s, atoms, width).flat > s.flat
    decreases |atoms|
  {
    var next := Step(s, atoms[0], width);
    if |atoms| == 1 {
      assert Lay(next, atoms[1..], width) == next;
    } else {
      LayGrows(next, atoms[1..], width);
    }
  }

  /** The first atom at a column is found where the layout puts it, lower by the rows
      the walk has left blank. */
  lemma {:induction false} ScanFinds(s: Laid, rows: nat, a: seq<Atom>, b: seq<Atom>, width: nat)
    requires s.starts != [] && width >= 1 && NoTail(a) && b != []
    ensures var t := Lay(s, a, width);
            t.starts != [] &&
            Scan(Raised(Norm(s, width), rows), a + b, width, t.flat)
            == Found(Below(t, b[0].width, width).0 + rows + Blanks(s, a + [b[0]], width), Below(t, b[0].width, width).1)
    decreases |a|
  {
    if a == [] {
      assert a + b == b && a + [b[0]] == [b[0]];
      assert Blanks(Step(s, b[0], width), [b[0]][1..], width) == 0;
      StepAgrees(s, b[0], width, rows);
    } else {
      assert (a + b)[1..] == a[1..] + b && (a + [b[0]])[1..] == a[1..] + [b[0]];
      StepAgrees(s, a[0], width, rows);
      LayGrows(s, a, width);
      ScanFinds(Step(s, a[0], width), rows + Blank(s, a[0], width), a[1..], b, width);
    }
  }

  /** Atoms before a column are passed. */
  lemma {:induction false} ScanPasses(s: Laid, rows: nat, a: seq<Atom>, width: nat, target: nat)
    requires Anchored(s) && width >= 1
    requires target > Lay(s, a, width).flat || (target == Lay(s, a, width).flat && NoTail(a))
    ensures Lay(s, a, width).starts != []
    ensures Scan(Raised(Norm(s, width), rows), a, width, target)
            == Going(Raised(Norm(Lay(s, a, width), width), rows + Blanks(s, a, width)))
    decreases |a|
  {
    if a != [] {
      StepAgrees(s, a[0], width, rows);
      LayAnchored(Step(s, a[0], width), a[1..], width);
      if NoTail(a) {
        LayGrows(s, a, width);
      }
      ScanPasses(Step(s, a[0], width), rows + Blank(s, a[0], width), a[1..], width, target);
    }
  }

  lemma UnitsTail(n: nat, at: nat)
    requires n > 0
    ensures Units(n, at)[0] == Atom(1, at) && Units(n, at)[1..] == Units(n - 1, at)
  {
  }

  /** Trailing cells are found where the layout puts them; after the last of them the
      cursor stays on its row, full or not. */
  lemma {:induction false} TrailFinds(s: Laid, rows: nat, n: nat, m: nat, at: nat, width: nat)
    requires s.starts != [] && width >= 1 && m <= n
    ensures var t := Lay(s, Units(m, at), width);
            t.starts != [] && (m > 0 ==> t.col <= width) &&
            Trail(Raised(Norm(s, width), rows), n, width, s.flat + m)
            == (if m < n then (Below(t, 1, width).0 + rows, Below(t, 1, width).1)
                else if n == 0 then (Below(t, 0, width).0 + rows, Below(t, 0, width).1)
                else (|t.starts| - 1 + rows, t.col))
    decreases n
  {
    if m > 0 {
      UnitsTail(m, at);
      var next := Step(s, Atom(1, at), width);
      StepAgrees(s, Atom(1, at), width, rows);
      if n > 1 {
        TrailFinds(next, rows, n - 1, m - 1, at, width);
      } else {
        assert Units(0, at) == [];
      }
    }
  }

  // ----- the rows' display ranges -----------------------------------------------------------

  /** The last row that starts at or before a column, and the cells into it; a full
      row gives the start of the next. */
  function PositionInRows(starts: seq<nat>, width: nat, d: nat): (int, int) {
    var pos := PartitionPoint(starts, (x: nat) => x <= d);
    var row := if pos > 0 then pos - 1 else 0;
    var column := if row < |starts| then d - starts[row] else 0;
    if column >= width then (row + 1, 0) else (row, column)
  }

  /** Rows opened later start at or after the current column. */
  lemma {:induction false} LaterStarts(s: Laid, b: seq<Atom>, width: nat)
    ensures var t := Lay(s, b, width).starts;
            |s.starts| <= |t| && t[..|s.starts|] == s.starts && forall k :: |s.starts| <= k < |t| ==> t[k] >= s.flat
    decreases |b|
  {
    if b != [] {
      var next, t := Step(s, b[0], width), Lay(s, b, width).starts;
      LaterStarts(next, b[1..], width);
      assert t[..|s.starts|] == next.starts[..|s.starts|];
      forall k | |s.starts| <= k < |t| ensures t[k] >= s.flat {
        assert k < |next.starts| ==> t[..|next.starts|][k] == next.starts[k];
      }
    }
  }

  /** Where the ranges put the column `s` has come to, `b` being still to come: with
      the first visible atom, after what the invisible ones before it have opened. */
  function RangesPlace(s: Laid, b: seq<Atom>, width: nat): (nat, nat)
    requires s.starts != []
    decreases |b|
  {
    if b == [] then Below(s, 0, width)
    else if b[0].width > 0 then Below(s, b[0].width, width)
    else RangesPlace(Step(s, b[0], width), b[1..], width)
  }

  lemma {:induction false} RangesFind(s: Laid, b: seq<Atom>, width: nat)
    requires Anchored(s) && width >= 1
    ensures PositionInRows(Lay(s, b, width).starts, width, s.flat) == RangesPlace(s, b, width)
    decreases |b|
  {
    if b == [] {
      EndIsFound(s, width);
    } else if b[0].width > 0 {
      VisibleIsFound(s, b, width);
    } else {
      StepAnchored(s, b[0], width);
      RangesFind(Step(s, b[0], width), b[1..], width);
    }
  }

  lemma StepAnchored(s: Laid, a: Atom, width: nat)
    requires Anchored(s)
    ensures Anchored(Step(s, a, width)) && Step(s, a, width).flat == s.flat + a.width
  {
  }

  lemma EndIsFound(s: Laid, width: nat)
    requires Anchored(s) && width >= 1
    ensures PositionInRows(s.starts, width, s.flat) == Below(s, 0, width)
  {
    AllStartsBy(s);
    SplitPosition(s.starts, s.starts, width, s.flat);
  }

  lemma AllStartsBy(s: Laid)
    requires Anchored(s)
    ensures forall x :: x in s.starts ==> x <= s.flat
  {
    forall x | x in s.starts ensures x <= s.flat {
      var i :| 0 <= i < |s.starts| && s.starts[i] == x;
    }
  }

  lemma VisibleIsFound(s: Laid, b: seq<Atom>, width: nat)
    requires Anchored(s) && width >= 1 && b != [] && b[0].width > 0
    ensures PositionInRows(Lay(s, b, width).starts, width, s.flat) == Below(s, b[0].width, width)
  {
    var next := Step(s, b[0], width);
    LaterStarts(next, b[1..], width);
    AllStartsBy(s);
    SplitPosition(next.starts, Lay(s, b, width).starts, width, s.flat);
  }

  /** The width of the first visible atom, 0 if there is none. */
  function NextVisible(b: seq<Atom>): nat {
    if b == [] then 0 else if b[0].width > 0 then b[0].width else NextVisible(b[1..])
  }

  /** Invisible atoms open a row only behind a glyph wider than the view. */
  function Opened(s: Laid, width: nat): Laid {
    if s.col > width then Broken(s, 0) else s
  }

  lemma {:induction false} RangesPlaceIs(s: Laid, b: seq<Atom>, width: nat)
    requires s.starts != [] && width >= 1 && b != []
    ensures RangesPlace(s, b, width)
            == Below(if b[0].width == 0 then Opened(s, width) else s, NextVisible(b), width)
    decreases |b|
  {
    if b[0].width == 0 && b[1..] != [] {
      RangesPlaceIs(Step(s, b[0], width), b[1..], width);
    }
  }

  // ----- when the two agree -----------------------------------------------------------------

  /** The next visible glyph does not fit behind the invisible ones at a column. */
  predicate Late(s: Laid, first: nat, next: nat, width: nat) {
    first == 0 && s.col != width && next > if s.col > width then width else width - s.col
  }

  /** Ranges and walk meet at a column unless the walk has left rows blank, or stopped
      at an invisible cluster before a glyph that moves down. With both, the two
      errors cancel if that glyph moved from the start of a row. */
  predicate Meet(s: Laid, first: nat, next: nat, blanks: nat, width: nat) {
    if Late(s, first, next, width) then blanks == 1 && (s.col == 0 || s.col > width) else blanks == 0
  }

  lemma MeetExactly(s: Laid, b: seq<Atom>, blanks: nat, width: nat)
    requires s.starts != [] && width >= 1 && b != []
    ensures RangesPlace(s, b, width) == (Below(s, b[0].width, width).0 + blanks, Below(s, b[0].width, width).1)
            <==> Meet(s, b[0].width, NextVisible(b), blanks, width)
  {
    RangesPlaceIs(s, b, width);
  }

  lemma SplitPosition(early: seq<nat>, all: seq<nat>, width: nat, d: nat)
    requires |early| >= 1 && |early| <= |all| && all[..|early|] == early
    requires forall x :: x in early ==> x <= d
    requires forall k :: |early| <= k < |all| ==> all[k] > d
    ensures var row := |early| - 1;
            PositionInRows(all, width, d)
            == if d - early[row] >= width then (row + 1, 0) else (row, d - early[row])
  {
    var rest := all[|early|..];
    assert early + rest == all;
    PartitionIs(early, rest, (x: nat) => x <= d);
    assert all[|early| - 1] == early[|early| - 1];
  }
}
