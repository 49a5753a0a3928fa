/** Where the rendered rows and the cursor walk put the clusters of a line: exactly when
    they agree, and which rows are full (ovim-core/src/line_layout.rs and
    ovim-core/src/wrap.rs). */
module Agreements {
  import opened Basics
  import opened Display
  import opened Wraps
  import opened EagerWalks
  import opened RowPositions
  import opened RowCells
  import opened RowBuilders
  import opened ComposedColumns

  /** The rendered position of a character, from the display ranges of the rows. */
  function Rendered(cs: seq<Cluster>, runs: seq<Run>, tab: nat, width: nat, col: nat): (int, int)
    requires tab >= 1
  {
    PositionInRows(LineLayout(cs, runs, tab, width).starts, width, Composed(cs, runs, tab, col))
  }

  /** Its position by the cursor walk. */
  function Walked(cs: seq<Cluster>, runs: seq<Run>, tab: nat, width: nat, col: nat): (nat, nat)
    requires tab >= 1 && width >= 1
  {
    Placed(Content(cs, runs, tab), TotalWidth(runs, UsedFrom(cs, runs, 0, 0)), width, Composed(cs, runs, tab, col))
  }

  // ----- the first atom at a column ---------------------------------------------------------

  /** Atoms less the invisible ones at their end. */
  function Lead(atoms: seq<Atom>): (r: seq<Atom>)
    ensures NoTail(r) && r <= atoms
  {
    if NoTail(atoms) then atoms else Lead(atoms[..|atoms| - 1])
  }

  lemma {:induction false} LeadWidth(atoms: seq<Atom>)
    ensures Widths(Lead(atoms)) == Widths(atoms)
  {
    if !NoTail(atoms) {
      var init, last := atoms[..|atoms| - 1], [atoms[|atoms| - 1]];
      assert atoms == init + last && last[1..] == [];
      WidthsConcat(init, last);
      LeadWidth(init);
    }
  }

  /** What decides where a column is shown: the layout up to the first atom there, that
      atom, the next visible glyph, and the rows the walk has left blank. */
  datatype Spot = Spot(before: Laid, first: nat, next: nat, blanks: nat)

  function SpotOf(ahead: seq<Atom>, rest: seq<Atom>, trailing: seq<Atom>, width: nat): Spot
    requires Lead(ahead) != ahead || rest != []
  {
    var a := Lead(ahead);
    var b := ahead[|a|..] + rest;
    Spot(Lay(TOP, a, width), b[0].width, NextVisible(b + trailing), Blanks(TOP, a + [b[0]], width))
  }

  lemma {:induction false} SpotRendered(a: seq<Atom>, b: seq<Atom>, trailing: seq<Atom>, width: nat)
    requires width >= 1
    ensures Anchored(Lay(TOP, a, width)) && Lay(TOP, a, width).flat == Widths(a)
    ensures PositionInRows(Lay(TOP, a + (b + trailing), width).starts, width, Widths(a))
            == RangesPlace(Lay(TOP, a, width), b + trailing, width)
  {
    LayFlat(TOP, a, width);
    LayAnchored(TOP, a, width);
    LayConcat(TOP, a, b + trailing, width);
    RangesFind(Lay(TOP, a, width), b + trailing, width);
  }

  lemma {:induction false} SpotWalked(a: seq<Atom>, b: seq<Atom>, n: nat, width: nat)
    requires width >= 1 && NoTail(a) && b != []
    ensures Lay(TOP, a, width).starts != []
    ensures var place := Below(Lay(TOP, a, width), b[0].width, width);
            Placed(a + b, n, width, Widths(a)) == (place.0 + Blanks(TOP, a + [b[0]], width), place.1)
  {
    LayFlat(TOP, a, width);
    HomeIsTop(width);
    ScanFinds(TOP, 0, a, b, width);
  }

  lemma {:induction false} SpotDecides(ahead: seq<Atom>, rest: seq<Atom>, trailing: seq<Atom>, n: nat, width: nat)
    requires width >= 1 && (Lead(ahead) != ahead || rest != [])
    ensures var s, d := SpotOf(ahead, rest, trailing, width), Widths(ahead);
            PositionInRows(Lay(TOP, ahead + rest + trailing, width).starts, width, d)
              == Placed(ahead + rest, n, width, d)
            <==> Meet(s.before, s.first, s.next, s.blanks, width)
  {
    var a := Lead(ahead);
    var b := ahead[|a|..] + rest;
    assert ahead + rest == a + b && ahead + rest + trailing == a + (b + trailing);
    LeadWidth(ahead);
    PartsDecide(a, b, trailing, n, width);
  }

  lemma {:induction false} PartsDecide(a: seq<Atom>, b: seq<Atom>, trailing: seq<Atom>, n: nat, width: nat)
    requires width >= 1 && NoTail(a) && b != []
    ensures PositionInRows(Lay(TOP, a + (b + trailing), width).starts, width, Widths(a))
            == Placed(a + b, n, width, Widths(a))
            <==> Meet(Lay(TOP, a, width), b[0].width, NextVisible(b + trailing), Blanks(TOP, a + [b[0]], width), width)
  {
    SpotRendered(a, b, trailing, width);
    SpotWalked(a, b, n, width);
    assert (b + trailing)[0] == b[0];
    MeetExactly(Lay(TOP, a, width), b + trailing, Blanks(TOP, a + [b[0]], width), width);
  }

  lemma {:induction false} HomeIsTop(width: nat)
    requires width >= 1
    ensures Raised(Norm(TOP, width), 0) == HOME
  {
  }

  // ----- clusters --------------------------------------------------------------------------------

  function ClusterSpot(cs: seq<Cluster>, runs: seq<Run>, tab: nat, width: nat, k: nat): Spot
    requires k < |cs| && tab >= 1
  {
    RestNonEmpty(cs, runs, tab, k);
    SpotOf(Ahead(cs, runs, tab, k), Rest(cs, runs, tab, k), Trailing(cs, runs), width)
  }

  lemma {:induction false} RestNonEmpty(cs: seq<Cluster>, runs: seq<Run>, tab: nat, k: nat)
    requires k < |cs| && tab >= 1
    ensures Rest(cs, runs, tab, k) != []
  {
  }

  /** For clusters of any width and decorations anchored anywhere: rows and walk put a
      cluster at the same place exactly when they meet at its column. */
  lemma {:induction false} ClustersAgreeExactly(cs: seq<Cluster>, runs: seq<Run>, tab: nat, width: nat, k: nat)
    requires Sound(cs) && Sorted(runs) && k < |cs| && tab >= 1 && width >= 1
    ensures var s := ClusterSpot(cs, runs, tab, width, k);
            Rendered(cs, runs, tab, width, CharStart(cs, k)) == Walked(cs, runs, tab, width, CharStart(cs, k))
            <==> Meet(s.before, s.first, s.next, s.blanks, width)
  {
    RestNonEmpty(cs, runs, tab, k);
    AheadAndRest(cs, runs, tab, k);
    ComposedIsAhead(cs, runs, tab, k);
    SpotDecides(Ahead(cs, runs, tab, k), Rest(cs, runs, tab, k), Trailing(cs, runs),
                TotalWidth(runs, UsedFrom(cs, runs, 0, 0)), width);
  }

  // ----- the end of the line -----------------------------------------------------------------------

  /** The content ends in invisible clusters and the end of the line is at their column. */
  predicate EndsInvisibly(cs: seq<Cluster>, runs: seq<Run>, tab: nat)
    requires tab >= 1
  {
    InnerCells(cs, runs) == 0 && !NoTail(Content(cs, runs, tab))
  }

  /** The layout up to the end of the line, cells anchored before it included. */
  function EndLaid(cs: seq<Cluster>, runs: seq<Run>, tab: nat, width: nat): Laid
    requires tab >= 1
  {
    Lay(TOP, Content(cs, runs, tab) + Units(InnerCells(cs, runs), CharStart(cs, |cs|)), width)
  }

  /** Where rows and walk agree on the end of the line: the walk has left no row blank,
      and the last of the trailing cells, if the end is behind it, does not fill its row. */
  predicate EndsMeet(cs: seq<Cluster>, runs: seq<Run>, tab: nat, width: nat)
    requires tab >= 1
  {
    if EndsInvisibly(cs, runs, tab) then
      var s := SpotOf(Content(cs, runs, tab), [], Trailing(cs, runs), width);
      Meet(s.before, s.first, s.next, s.blanks, width)
    else
      Blanks(TOP, Content(cs, runs, tab), width) == 0 &&
      !(0 < InnerCells(cs, runs) == TotalWidth(runs, UsedFrom(cs, runs, 0, 0)) &&
        EndLaid(cs, runs, tab, width).col == width)
  }

  lemma {:induction false} EndsAgreeExactly(cs: seq<Cluster>, runs: seq<Run>, tab: nat, width: nat)
    requires Sound(cs) && Sorted(runs) && tab >= 1 && width >= 1
    ensures Rendered(cs, runs, tab, width, CharStart(cs, |cs|)) == Walked(cs, runs, tab, width, CharStart(cs, |cs|))
            <==> EndsMeet(cs, runs, tab, width)
  {
    if EndsInvisibly(cs, runs, tab) {
      InvisibleEnd(cs, runs, tab, width);
    } else {
      VisibleEnd(cs, runs, tab, width);
    }
  }

  lemma {:induction false} InvisibleEnd(cs: seq<Cluster>, runs: seq<Run>, tab: nat, width: nat)
    requires Sound(cs) && Sorted(runs) && tab >= 1 && width >= 1 && EndsInvisibly(cs, runs, tab)
    ensures var s := SpotOf(Content(cs, runs, tab), [], Trailing(cs, runs), width);
            Rendered(cs, runs, tab, width, CharStart(cs, |cs|)) == Walked(cs, runs, tab, width, CharStart(cs, |cs|))
            <==> Meet(s.before, s.first, s.next, s.blanks, width)
  {
    ComposedEnd(cs, runs, tab);
    SpotAtEnd(Content(cs, runs, tab), Trailing(cs, runs), TotalWidth(runs, UsedFrom(cs, runs, 0, 0)), width);
  }

  lemma {:induction false} SpotAtEnd(content: seq<Atom>, trailing: seq<Atom>, n: nat, width: nat)
    requires width >= 1 && Lead(content) != content
    ensures var s, d := SpotOf(content, [], trailing, width), Widths(content);
            PositionInRows(Lay(TOP, content + trailing, width).starts, width, d) == Placed(content, n, width, d)
            <==> Meet(s.before, s.first, s.next, s.blanks, width)
  {
    assert content + [] == content;
    SpotDecides(content, [], trailing, n, width);
  }

  lemma {:induction false} VisibleEnd(cs: seq<Cluster>, runs: seq<Run>, tab: nat, width: nat)
    requires Sound(cs) && Sorted(runs) && tab >= 1 && width >= 1 && !EndsInvisibly(cs, runs, tab)
    ensures Rendered(cs, runs, tab, width, CharStart(cs, |cs|)) == Walked(cs, runs, tab, width, CharStart(cs, |cs|))
            <==> Blanks(TOP, Content(cs, runs, tab), width) == 0 &&
                 !(0 < InnerCells(cs, runs) == TotalWidth(runs, UsedFrom(cs, runs, 0, 0)) &&
                   EndLaid(cs, runs, tab, width).col == width)
  {
    EndRendered(cs, runs, tab, width);
    EndWalked(cs, runs, tab, width);
    EndColumn(cs, runs, tab, width);
    InnerIsTrailing(cs, runs);
    EndPlaces(EndLaid(cs, runs, tab, width), InnerCells(cs, runs), TotalWidth(runs, UsedFrom(cs, runs, 0, 0)),
              Blanks(TOP, Content(cs, runs, tab), width), width);
  }

  /** Where the walk stops `m` trailing cells of `n` past the content. */
  function EndStop(t: Laid, m: nat, n: nat, blanks: nat, width: nat): (nat, nat)
    requires t.starts != []
  {
    if 0 < m == n then (|t.starts| - 1 + blanks, t.col)
    else (Below(t, if m < n then 1 else 0, width).0 + blanks, Below(t, if m < n then 1 else 0, width).1)
  }

  lemma {:induction false} EndPlaces(t: Laid, m: nat, n: nat, blanks: nat, width: nat)
    requires t.starts != [] && m <= n && width >= 1 && (m > 0 ==> t.col <= width)
    ensures Below(t, if m < n then 1 else 0, width) == EndStop(t, m, n, blanks, width)
            <==> blanks == 0 && !(0 < m == n && t.col == width)
  {
  }

  lemma {:induction false} EndColumn(cs: seq<Cluster>, runs: seq<Run>, tab: nat, width: nat)
    requires tab >= 1 && width >= 1
    ensures EndLaid(cs, runs, tab, width).starts != []
    ensures InnerCells(cs, runs) > 0 ==> EndLaid(cs, runs, tab, width).col <= width
  {
    var c, m, at := Content(cs, runs, tab), InnerCells(cs, runs), CharStart(cs, |cs|);
    LayAnchored(TOP, c, width);
    LayConcat(TOP, c, Units(m, at), width);
    TrailFinds(Lay(TOP, c, width), 0, m, m, at, width);
  }

  /** The rows put the end of the line in front of the trailing cells right of it. */
  lemma {:induction false} EndRendered(cs: seq<Cluster>, runs: seq<Run>, tab: nat, width: nat)
    requires Sound(cs) && Sorted(runs) && tab >= 1 && width >= 1
    ensures EndLaid(cs, runs, tab, width).starts != []
    ensures Rendered(cs, runs, tab, width, CharStart(cs, |cs|))
            == Below(EndLaid(cs, runs, tab, width),
                     if InnerCells(cs, runs) < TotalWidth(runs, UsedFrom(cs, runs, 0, 0)) then 1 else 0, width)
  {
    ComposedEnd(cs, runs, tab);
    InnerIsTrailing(cs, runs);
    RunAtomsAreUnits(runs, UsedFrom(cs, runs, 0, 0), CharStart(cs, |cs|));
    UnitsRendered(Content(cs, runs, tab), InnerCells(cs, runs), TotalWidth(runs, UsedFrom(cs, runs, 0, 0)),
                  CharStart(cs, |cs|), width);
  }

  lemma {:induction false} UnitsFound(t: Laid, n: nat, at: nat, width: nat)
    requires Anchored(t) && t.starts != [] && width >= 1
    ensures PositionInRows(Lay(t, Units(n, at), width).starts, width, t.flat) == Below(t, if n > 0 then 1 else 0, width)
  {
    RangesFind(t, Units(n, at), width);
  }

  lemma {:induction false} UnitsLaid(c: seq<Atom>, m: nat, n: nat, at: nat, width: nat)
    requires m <= n && width >= 1
    ensures Lay(TOP, c + Units(n, at), width) == Lay(Lay(TOP, c + Units(m, at), width), Units(n - m, at), width)
  {
    UnitsSplit(m, n - m, at);
    Associate(c, Units(m, at), Units(n - m, at));
    LayConcat(TOP, c + Units(m, at), Units(n - m, at), width);
  }

  lemma {:induction false} UnitsFlat(c: seq<Atom>, m: nat, at: nat, width: nat)
    requires width >= 1
    ensures var t := Lay(TOP, c + Units(m, at), width);
            t.starts != [] && Anchored(t) && t.flat == Widths(c) + m
  {
    LayFlat(TOP, c + Units(m, at), width);
    WidthsConcat(c, Units(m, at));
    UnitsWidth(m, at);
    LayAnchored(TOP, c + Units(m, at), width);
  }

  lemma {:induction false} UnitsRendered(c: seq<Atom>, m: nat, n: nat, at: nat, width: nat)
    requires m <= n && width >= 1
    ensures var t := Lay(TOP, c + Units(m, at), width);
            t.starts != [] &&
            PositionInRows(Lay(TOP, c + Units(n, at), width).starts, width, Widths(c) + m)
              == Below(t, if m < n then 1 else 0, width)
  {
    var t := Lay(TOP, c + Units(m, at), width);
    UnitsLaid(c, m, n, at, width);
    UnitsFlat(c, m, at, width);
    UnitsFound(t, n - m, at, width);
  }

  /** The walk passes the content, then stops at that trailing cell, or behind the last. */
  lemma {:induction false} EndWalked(cs: seq<Cluster>, runs: seq<Run>, tab: nat, width: nat)
    requires Sound(cs) && Sorted(runs) && tab >= 1 && width >= 1 && !EndsInvisibly(cs, runs, tab)
    ensures EndLaid(cs, runs, tab, width).starts != []
    ensures var m, n := InnerCells(cs, runs), TotalWidth(runs, UsedFrom(cs, runs, 0, 0));
            var t := EndLaid(cs, runs, tab, width);
            Walked(cs, runs, tab, width, CharStart(cs, |cs|))
            == EndStop(t, m, n, Blanks(TOP, Content(cs, runs, tab), width), width)
  {
    ComposedEnd(cs, runs, tab);
    InnerIsTrailing(cs, runs);
    UnitsWalked(Content(cs, runs, tab), InnerCells(cs, runs), TotalWidth(runs, UsedFrom(cs, runs, 0, 0)),
                CharStart(cs, |cs|), width);
  }

  lemma {:induction false} UnitsWalked(c: seq<Atom>, m: nat, n: nat, at: nat, width: nat)
    requires m <= n && width >= 1 && (m > 0 || NoTail(c))
    ensures var t, blanks := Lay(TOP, c + Units(m, at), width), Blanks(TOP, c, width);
            t.starts != [] &&
            Placed(c, n, width, Widths(c) + m) == EndStop(t, m, n, blanks, width)
  {
    ContentPassed(c, n, m, width);
    LayFlat(TOP, c, width);
    LayConcat(TOP, c, Units(m, at), width);
    TrailFinds(Lay(TOP, c, width), Blanks(TOP, c, width), n, m, at, width);
  }

  lemma {:induction false} ContentPassed(c: seq<Atom>, n: nat, m: nat, width: nat)
    requires width >= 1 && (m > 0 || NoTail(c))
    ensures Lay(TOP, c, width).starts != []
    ensures Placed(c, n, width, Widths(c) + m)
            == Trail(Raised(Norm(Lay(TOP, c, width), width), Blanks(TOP, c, width)), n, width, Widths(c) + m)
  {
    LayFlat(TOP, c, width);
    HomeIsTop(width);
    ScanPasses(TOP, 0, c, width, Widths(c) + m);
  }

  // ----- rows and wrap points ----------------------------------------------------------------------

  /** Wrap points emitted up to the first cell of cluster `k`. */
  function WrapPointsAt(cs: seq<Cluster>, runs: seq<Run>, tab: nat, width: nat, k: nat): nat
    requires k < |cs| && tab >= 1
  {
    |Lay(TOP, Ahead(cs, runs, tab, k) + Rest(cs, runs, tab, k)[..1], width).points|
  }

  /** A cluster is in the row numbered by the wrap points emitted up to its first cell,
      unless it is invisible and its row is full or the next visible glyph moves down. */
  lemma {:induction false} RowIsWrapPoints(cs: seq<Cluster>, runs: seq<Run>, tab: nat, width: nat, k: nat)
    requires Sound(cs) && Sorted(runs) && k < |cs| && tab >= 1 && width >= 1
    ensures Rest(cs, runs, tab, k) != []
    ensures var s, rest := Lay(TOP, Ahead(cs, runs, tab, k), width), Rest(cs, runs, tab, k);
            Rendered(cs, runs, tab, width, CharStart(cs, k)).0 == WrapPointsAt(cs, runs, tab, width, k)
            <==> rest[0].width > 0 || (s.col != width && !Late(s, 0, NextVisible(rest + Trailing(cs, runs)), width))
  {
    var a, b := Ahead(cs, runs, tab, k), Rest(cs, runs, tab, k);
    RestNonEmpty(cs, runs, tab, k);
    AheadAndRest(cs, runs, tab, k);
    ComposedIsAhead(cs, runs, tab, k);
    PointsAt(a, b, Trailing(cs, runs), width);
  }

  lemma {:induction false} PointsAt(a: seq<Atom>, b: seq<Atom>, trailing: seq<Atom>, width: nat)
    requires b != [] && width >= 1
    ensures var s := Lay(TOP, a, width);
            PositionInRows(Lay(TOP, a + b + trailing, width).starts, width, Widths(a)).0
              == |Lay(TOP, a + b[..1], width).points|
            <==> b[0].width > 0 || (s.col != width && !Late(s, 0, NextVisible(b + trailing), width))
  {
    var s := Lay(TOP, a, width);
    Associate(a, b, trailing);
    SpotRendered(a, b, trailing, width);
    PointsAfterFirst(a, b, width);
    RangesPlaceIs(s, b + trailing, width);
    assert (b + trailing)[0] == b[0];
    RowOfFirst(s, b[0], NextVisible(b + trailing), width);
  }

  lemma {:induction false} PointsAfterFirst(a: seq<Atom>, b: seq<Atom>, width: nat)
    requires b != [] && width >= 1
    ensures Lay(TOP, a, width).starts != []
    ensures Lay(TOP, a + b[..1], width) == Step(Lay(TOP, a, width), b[0], width)
    ensures |Lay(TOP, a, width).starts| == |Lay(TOP, a, width).points| + 1
  {
    var s := Lay(TOP, a, width);
    LayConcat(TOP, a, b[..1], width);
    assert b[..1][1..] == [] && Lay(s, b[..1], width) == Lay(Step(s, b[0], width), [], width);
    LayAnchored(TOP, a, width);
    LayFlat(TOP, a, width);
  }

  /** The row the ranges give the first atom, against the wrap points up to it. */
  lemma {:induction false} RowOfFirst(s: Laid, first: Atom, next: nat, width: nat)
    requires s.starts != [] && |s.starts| == |s.points| + 1 && width >= 1
    requires first.width > 0 ==> next == first.width
    ensures Below(if first.width == 0 then Opened(s, width) else s, next, width).0 == |Step(s, first, width).points|
            <==> first.width > 0 || (s.col != width && !Late(s, 0, next, width))
  {
  }

  // ----- lines with clusters of limited width -----------------------------------------------------------

  /** Tabs and decorations are cut into single cells, so only glyphs decide. */
  predicate Glyphs(cs: seq<Cluster>, p: nat -> bool) {
    forall k :: 0 <= k < |cs| ==> cs[k].tab || p(cs[k].width)
  }

  predicate All(atoms: seq<Atom>, p: nat -> bool) {
    forall k :: 0 <= k < |atoms| ==> p(atoms[k].width)
  }

  lemma {:induction false} AllConcat(a: seq<Atom>, b: seq<Atom>, p: nat -> bool)
    ensures All(a + b, p) <==> All(a, p) && All(b, p)
  {
    if All(a + b, p) {
      assert forall k :: 0 <= k < |a| ==> a[k] == (a + b)[k];
      assert forall k :: 0 <= k < |b| ==> b[k] == (a + b)[|a| + k];
    }
  }

  lemma {:induction false} RunsAll(runs: seq<Run>, from: nat, to: nat, at: nat, p: nat -> bool)
    requires from <= to <= |runs| && p(1)
    ensures All(RunAtoms(runs, from, to, at), p)
    decreases |runs| - from
  {
    if from < to {
      RunsAll(runs, from + 1, to, at, p);
      AllConcat(Units(runs[from].width, at), RunAtoms(runs, from + 1, to, at), p);
    }
  }

  lemma {:induction false} ContentAll(cs: seq<Cluster>, runs: seq<Run>, tab: nat, k: nat, used: nat, p: nat -> bool)
    requires Glyphs(cs, p) && p(1) && tab >= 1 && k <= |cs| && used <= |runs|
    ensures All(ContentFrom(cs, runs, tab, k, used), p)
    decreases |cs| - k
  {
    if k < |cs| {
      ContentAll(cs, runs, tab, k + 1, Due(runs, used, CharStart(cs, k)), p);
      NextAll(cs, runs, tab, k, used, p);
    }
  }

  lemma {:induction false} NextAll(cs: seq<Cluster>, runs: seq<Run>, tab: nat, k: nat, used: nat, p: nat -> bool)
    requires Glyphs(cs, p) && p(1) && tab >= 1 && k < |cs| && used <= |runs|
    requires All(ContentFrom(cs, runs, tab, k + 1, Due(runs, used, CharStart(cs, k))), p)
    ensures All(ContentFrom(cs, runs, tab, k, used), p)
  {
    var due := Due(runs, used, CharStart(cs, k));
    RunsAll(runs, used, due, CharStart(cs, k), p);
    AllThree(RunAtoms(runs, used, due, CharStart(cs, k)), ClusterAtoms(cs, k, tab),
             ContentFrom(cs, runs, tab, k + 1, due), p);
  }

  lemma {:induction false} AllThree(a: seq<Atom>, b: seq<Atom>, c: seq<Atom>, p: nat -> bool)
    requires All(a, p) && All(b, p) && All(c, p)
    ensures All(a + (b + c), p)
  {
    AllConcat(b, c, p);
    AllConcat(a, b + c, p);
  }

  lemma {:induction false} PartsAll(cs: seq<Cluster>, runs: seq<Run>, tab: nat, k: nat, p: nat -> bool)
    requires Glyphs(cs, p) && p(1) && tab >= 1 && k <= |cs|
    ensures All(Ahead(cs, runs, tab, k), p) && All(Rest(cs, runs, tab, k), p)
    ensures All(Content(cs, runs, tab), p) && All(Trailing(cs, runs), p)
  {
    ContentAll(cs, runs, tab, 0, 0, p);
    AheadAndRest(cs, runs, tab, k);
    AllConcat(Ahead(cs, runs, tab, k), Rest(cs, runs, tab, k), p);
    RunsAll(runs, UsedFrom(cs, runs, 0, 0), |runs|, CharStart(cs, |cs|), p);
  }

  function UpTo(width: nat): nat -> bool {
    (w: nat) => w <= width
  }

  function Visible(): nat -> bool {
    (w: nat) => w >= 1
  }

  lemma {:induction false} NoBlanks(s: Laid, atoms: seq<Atom>, width: nat)
    requires All(atoms, UpTo(width)) && s.col <= width
    ensures Blanks(s, atoms, width) == 0 && Lay(s, atoms, width).col <= width
    decreases |atoms|
  {
    if atoms != [] {
      NoBlanks(Step(s, atoms[0], width), atoms[1..], width);
    }
  }

  /** With no glyph wider than the view, rows and walk differ on a cluster exactly when
      an invisible cluster comes first at its column, in a row begun but too full for the
      next visible glyph. */
  lemma {:induction false} InvisibleDecides(cs: seq<Cluster>, runs: seq<Run>, tab: nat, width: nat, k: nat)
    requires Sound(cs) && Sorted(runs) && k < |cs| && tab >= 1 && width >= 1 && Glyphs(cs, UpTo(width))
    ensures var s := ClusterSpot(cs, runs, tab, width, k);
            Rendered(cs, runs, tab, width, CharStart(cs, k)) == Walked(cs, runs, tab, width, CharStart(cs, k))
            <==> !(s.first == 0 && s.before.col < width < s.before.col + s.next)
  {
    ClustersAgreeExactly(cs, runs, tab, width, k);
    ClusterSpotWithin(cs, runs, tab, width, k);
  }

  lemma {:induction false} ClusterSpotWithin(cs: seq<Cluster>, runs: seq<Run>, tab: nat, width: nat, k: nat)
    requires k < |cs| && tab >= 1 && width >= 1 && Glyphs(cs, UpTo(width))
    ensures ClusterSpot(cs, runs, tab, width, k).blanks == 0
    ensures ClusterSpot(cs, runs, tab, width, k).before.col <= width
  {
    RestNonEmpty(cs, runs, tab, k);
    PartsAll(cs, runs, tab, k, UpTo(width));
    SpotWithin(Ahead(cs, runs, tab, k), Rest(cs, runs, tab, k), Trailing(cs, runs), width);
  }

  lemma {:induction false} SpotWithin(ahead: seq<Atom>, rest: seq<Atom>, trailing: seq<Atom>, width: nat)
    requires All(ahead, UpTo(width)) && All(rest, UpTo(width)) && rest != []
    ensures SpotOf(ahead, rest, trailing, width).blanks == 0
    ensures SpotOf(ahead, rest, trailing, width).before.col <= width
  {
    var a := Lead(ahead);
    var b := ahead[|a|..] + rest;
    assert a + b == ahead + rest;
    AllConcat(ahead, rest, UpTo(width));
    AllConcat(a, b, UpTo(width));
    assert All([b[0]], UpTo(width));
    AllConcat(a, [b[0]], UpTo(width));
    NoBlanks(TOP, a, width);
    NoBlanks(TOP, a + [b[0]], width);
  }

  /** With no invisible cluster, they differ on a cluster exactly when a glyph wider than
      the view, up to and including its own first atom, has met a full row. */
  lemma {:induction false} WideDecides(cs: seq<Cluster>, runs: seq<Run>, tab: nat, width: nat, k: nat)
    requires Sound(cs) && Sorted(runs) && k < |cs| && tab >= 1 && width >= 1 && Glyphs(cs, Visible())
    ensures Rest(cs, runs, tab, k) != []
    ensures Rendered(cs, runs, tab, width, CharStart(cs, k)) == Walked(cs, runs, tab, width, CharStart(cs, k))
            <==> Blanks(TOP, Ahead(cs, runs, tab, k) + [Rest(cs, runs, tab, k)[0]], width) == 0
  {
    RestNonEmpty(cs, runs, tab, k);
    ClustersAgreeExactly(cs, runs, tab, width, k);
    PartsAll(cs, runs, tab, k, Visible());
    var a, b := Ahead(cs, runs, tab, k), Rest(cs, runs, tab, k);
    assert NoTail(a) && a[|a|..] + b == b;
  }

  /** Every cluster shows at least a cell and fits the view. */
  predicate Viewable(cs: seq<Cluster>, width: nat) {
    Glyphs(cs, UpTo(width)) && Glyphs(cs, Visible())
  }

  /** Then rows and walk agree on every cluster, wherever decorations are anchored. */
  lemma {:induction false} LayoutsAgree(cs: seq<Cluster>, runs: seq<Run>, tab: nat, width: nat, k: nat)
    requires Sound(cs) && Sorted(runs) && Viewable(cs, width) && k < |cs| && tab >= 1 && width >= 1
    ensures Rendered(cs, runs, tab, width, CharStart(cs, k)) == Walked(cs, runs, tab, width, CharStart(cs, k))
  {
    RestNonEmpty(cs, runs, tab, k);
    WideDecides(cs, runs, tab, width, k);
    PartsAll(cs, runs, tab, k, UpTo(width));
    NoBlanksThrough(Ahead(cs, runs, tab, k), Rest(cs, runs, tab, k), width);
  }

  lemma {:induction false} NoBlanksThrough(a: seq<Atom>, b: seq<Atom>, width: nat)
    requires All(a, UpTo(width)) && All(b, UpTo(width)) && b != []
    ensures Blanks(TOP, a + [b[0]], width) == 0
  {
    assert All([b[0]], UpTo(width));
    AllConcat(a, [b[0]], UpTo(width));
    NoBlanks(TOP, a + [b[0]], width);
  }

  /** And on the end of the line exactly unless all trailing cells are anchored before
      it and the last of them fills its row. */
  lemma {:induction false} EndsAgree(cs: seq<Cluster>, runs: seq<Run>, tab: nat, width: nat)
    requires Sound(cs) && Sorted(runs) && Viewable(cs, width) && tab >= 1 && width >= 1
    ensures Rendered(cs, runs, tab, width, CharStart(cs, |cs|)) == Walked(cs, runs, tab, width, CharStart(cs, |cs|))
            <==> !(0 < InnerCells(cs, runs) == TotalWidth(runs, UsedFrom(cs, runs, 0, 0)) &&
                   EndLaid(cs, runs, tab, width).col == width)
  {
    EndsAgreeExactly(cs, runs, tab, width);
    PartsAll(cs, runs, tab, |cs|, Visible());
    PartsAll(cs, runs, tab, |cs|, UpTo(width));
    NoBlanks(TOP, Content(cs, runs, tab), width);
  }

  // ----- full rows ---------------------------------------------------------------------------------------

  /** No row spans more columns than the view. */
  predicate Narrow(s: Laid, width: nat) {
    s.starts != [] && s.flat <= s.starts[|s.starts| - 1] + width &&
    forall i, j :: 0 <= i && j == i + 1 < |s.starts| ==> s.starts[j] <= s.starts[i] + width
  }

  lemma {:induction false} NarrowLay(s: Laid, atoms: seq<Atom>, width: nat)
    requires Anchored(s) && Narrow(s, width) && All(atoms, UpTo(width))
    ensures Narrow(Lay(s, atoms, width), width)
    decreases |atoms|
  {
    if atoms != [] {
      StepAnchored(s, atoms[0], width);
      NarrowLay(Step(s, atoms[0], width), atoms[1..], width);
    }
  }

  /** A row before the last is exactly full, counting padding, if and only if it spans
      no more columns than the view; wider, it holds a single glyph. */
  lemma {:induction false} FullUnlessWide(rows: seq<RowPlan>, s: Laid, width: nat, r: nat)
    requires Complete(rows, s, width) && r + 1 < |rows|
    ensures RowWidth(rows[r].fragments) == width <==> s.starts[r + 1] <= s.starts[r] + width
    ensures s.starts[r + 1] > s.starts[r] + width ==> |rows[r].fragments| == 1
  {
    assert Closed(rows[r], s.starts[r + 1], width);
  }

  /** When no cluster is wider than the view, every row but the last is exactly full,
      counting padding. */
  lemma {:induction false} RowsExactlyFull(rows: seq<RowPlan>, cs: seq<Cluster>, runs: seq<Run>, tab: nat, width: nat,
                                           r: nat)
    requires tab >= 1 && width >= 1 && Glyphs(cs, UpTo(width))
    requires Complete(rows, LineLayout(cs, runs, tab, width), width) && r + 1 < |rows|
    ensures RowWidth(rows[r].fragments) == width
  {
    PartsAll(cs, runs, tab, 0, UpTo(width));
    AllConcat(Content(cs, runs, tab), Trailing(cs, runs), UpTo(width));
    NarrowLay(TOP, Content(cs, runs, tab) + Trailing(cs, runs), width);
    FullUnlessWide(rows, LineLayout(cs, runs, tab, width), width, r);
  }

  // ----- lines on which rows and walk differ ---------------------------------------------------------------

  function Atoms(cs: seq<Cluster>): (atoms: seq<Atom>)
    ensures |atoms| == |cs| && forall i :: 0 <= i < |cs| ==> atoms[i] == Atom(cs[i].width, CharStart(cs, i))
  {
    seq(|cs|, i requires 0 <= i < |cs| => Atom(cs[i].width, CharStart(cs, i)))
  }

  lemma {:induction false} NoneUsed(cs: seq<Cluster>, k: nat)
    requires k <= |cs|
    ensures UsedBefore(cs, [], k) == 0
  {
    if k > 0 {
      NoneUsed(cs, k - 1);
    }
  }

  lemma {:induction false} GlyphDue(cs: seq<Cluster>, tab: nat, k: nat)
    requires k < |cs| && tab >= 1
    ensures HeadWithDue(cs, [], tab, k) == Head(cs, [], tab, k)
  {
    NoneUsed(cs, k);
    NoneUsed(cs, k + 1);
    assert Head(cs, [], tab, k) + [] == Head(cs, [], tab, k);
  }

  lemma {:induction false} GlyphStep(cs: seq<Cluster>, tab: nat, k: nat)
    requires k < |cs| && tab >= 1 && !cs[k].tab
    ensures ContentFrom(cs, [], tab, k, 0) == [Atoms(cs)[k]] + ContentFrom(cs, [], tab, k + 1, 0)
  {
    assert Due([], 0, CharStart(cs, k)) == 0;
    var rest := [Atoms(cs)[k]] + ContentFrom(cs, [], tab, k + 1, 0);
    assert [] + rest == rest;
  }

  lemma {:induction false} GlyphRest(cs: seq<Cluster>, tab: nat, k: nat)
    requires k <= |cs| && tab >= 1 && forall i :: 0 <= i < |cs| ==> !cs[i].tab
    ensures ContentFrom(cs, [], tab, k, 0) == Atoms(cs)[k..]
    decreases |cs| - k
  {
    if k < |cs| {
      GlyphRest(cs, tab, k + 1);
      GlyphStep(cs, tab, k);
    }
  }

  lemma {:induction false} GlyphAhead(cs: seq<Cluster>, tab: nat)
    requires |cs| > 1 && tab >= 1 && !cs[0].tab
    ensures Ahead(cs, [], tab, 1) == [Atoms(cs)[0]]
  {
    GlyphDue(cs, tab, 0);
    GlyphDue(cs, tab, 1);
    assert Head(cs, [], tab, 1) == [] + ClusterAtoms(cs, 0, tab);
  }

  /** A line of glyphs without decorations, cut after the first. */
  lemma {:induction false} GlyphLine(cs: seq<Cluster>, tab: nat)
    requires |cs| > 1 && tab >= 1 && forall i :: 0 <= i < |cs| ==> !cs[i].tab
    ensures Ahead(cs, [], tab, 1) == [Atoms(cs)[0]] && Rest(cs, [], tab, 1) == Atoms(cs)[1..]
    ensures Trailing(cs, []) == []
  {
    GlyphAhead(cs, tab);
    GlyphRest(cs, tab, 1);
    GlyphStep(cs, tab, 1);
    NoneUsed(cs, 2);
  }

  /** In every view at least two cells wide, an invisible cluster before any glyph that
      must move down from a row begun. */
  lemma {:induction false} ZeroWidthDisagrees(tab: nat, width: nat, glyph: nat)
    requires tab >= 1 && 2 <= glyph <= width
    ensures var cs := [Cluster(1, width - 1, false), Cluster(1, 0, false), Cluster(1, glyph, false)];
            Rendered(cs, [], tab, width, CharStart(cs, 1)) != Walked(cs, [], tab, width, CharStart(cs, 1))
  {
    var cs := [Cluster(1, width - 1, false), Cluster(1, 0, false), Cluster(1, glyph, false)];
    assert Glyphs(cs, UpTo(width));
    InvisibleDecides(cs, [], tab, width, 1);
    InvisibleSecond(cs, tab, width);
  }

  lemma {:induction false} InvisibleSecond(cs: seq<Cluster>, tab: nat, width: nat)
    requires |cs| == 3 && tab >= 1 && forall i :: 0 <= i < |cs| ==> !cs[i].tab
    requires 0 < cs[0].width <= width && cs[1].width == 0 < cs[2].width
    ensures var s := ClusterSpot(cs, [], tab, width, 1);
            s.first == 0 && s.next == cs[2].width && s.before.col == cs[0].width
  {
    ThreeParts(cs, tab);
    InvisibleSpot(Atoms(cs)[0], Atoms(cs)[1], Atoms(cs)[2], width);
  }

  lemma {:induction false} ThreeParts(cs: seq<Cluster>, tab: nat)
    requires |cs| == 3 && tab >= 1 && forall i :: 0 <= i < |cs| ==> !cs[i].tab
    ensures Ahead(cs, [], tab, 1) == [Atoms(cs)[0]] && Rest(cs, [], tab, 1) == [Atoms(cs)[1], Atoms(cs)[2]]
    ensures Trailing(cs, []) == []
  {
    GlyphLine(cs, tab);
    assert Atoms(cs)[1..] == [Atoms(cs)[1], Atoms(cs)[2]];
  }

  lemma {:induction false} InvisibleSpot(a: Atom, b: Atom, c: Atom, width: nat)
    requires 0 < a.width <= width && b.width == 0 < c.width
    ensures var s := SpotOf([a], [b, c], [], width);
            s.first == 0 && s.next == c.width && s.before.col == a.width
  {
    assert NextVisible([b, c]) == NextVisible([c]);
    assert Lead([a]) == [a] && [a][1..] + [b, c] == [b, c] && [b, c] + [] == [b, c] && [b, c][1..] == [c];
    assert Lay(TOP, [a], width) == Lay(Step(TOP, a, width), [], width);
  }

  /** In every view, any glyph wider than the view behind a full row. */
  lemma {:induction false} WideGlyphDisagrees(tab: nat, width: nat, glyph: nat)
    requires tab >= 1 && 1 <= width < glyph
    ensures var cs := [Cluster(1, width, false), Cluster(1, glyph, false)];
            Rendered(cs, [], tab, width, CharStart(cs, 1)) != Walked(cs, [], tab, width, CharStart(cs, 1))
  {
    var cs := [Cluster(1, width, false), Cluster(1, glyph, false)];
    WideDecides(cs, [], tab, width, 1);
    WideParts(cs, tab);
    BlankBehindFull(Atoms(cs)[0], Atoms(cs)[1], width);
  }

  lemma {:induction false} WideParts(cs: seq<Cluster>, tab: nat)
    requires |cs| == 2 && tab >= 1 && forall i :: 0 <= i < |cs| ==> !cs[i].tab
    ensures Ahead(cs, [], tab, 1) == [Atoms(cs)[0]] && Rest(cs, [], tab, 1) == [Atoms(cs)[1]]
  {
    GlyphLine(cs, tab);
    assert Atoms(cs)[1..] == [Atoms(cs)[1]];
  }

  lemma {:induction false} BlankBehindFull(a: Atom, b: Atom, width: nat)
    requires 1 <= width == a.width < b.width
    ensures Blanks(TOP, [a] + [b], width) > 0
  {
    var s := Step(TOP, a, width);
    assert [a] + [b] == [a, b] && [a, b][1..] == [b];
    assert Blanks(s, [b], width) == Blank(s, b, width) + Blanks(Step(s, b, width), [b][1..], width);
  }

  /** In every view at least two cells wide, a decoration anchored inside the last
      cluster whose cell fills the row. */
  lemma {:induction false} InnerAnchorDisagrees(tab: nat, width: nat)
    requires tab >= 1 && width >= 2
    ensures var cs, runs := [Cluster(2, width - 1, false)], [Run(1, 1)];
            Rendered(cs, runs, tab, width, CharStart(cs, 1)) != Walked(cs, runs, tab, width, CharStart(cs, 1))
  {
    var cs, runs := [Cluster(2, width - 1, false)], [Run(1, 1)];
    EndsAgree(cs, runs, tab, width);
    assert CharStart(cs, 0) == 0 && CharStart(cs, 1) == CharStart(cs, 0) + 2;
    assert Due(runs, 0, 0) == 0;
    assert UsedFrom(cs, runs, 0, 0) == UsedFrom(cs, runs, 1, 0) == 0;
    assert ContentFrom(cs, runs, tab, 1, 0) == [];
    assert Content(cs, runs, tab) == [Atom(width - 1, 0)];
    assert runs[0..] == runs && InlineBefore(runs, 2, 2) == InlineBefore([], 2, 2) + 1;
    assert TotalWidth(runs, 0) == 1 + TotalWidth(runs, 1);
    FilledRow(Atom(width - 1, 0), width);
  }

  lemma {:induction false} FilledRow(a: Atom, width: nat)
    requires a.width + 1 == width
    ensures Lay(TOP, [a] + Units(1, 2), width).col == width
  {
    var u := Atom(1, 2);
    assert Units(1, 2) == [u] && [a] + [u] == [a, u] && [a, u][1..] == [u] && [u][1..] == [];
    assert Lay(TOP, [a, u], width) == Lay(Step(TOP, a, width), [u], width);
    assert Lay(Step(TOP, a, width), [u], width) == Lay(Step(Step(TOP, a, width), u, width), [], width);
  }
}
