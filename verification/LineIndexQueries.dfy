/** The line index as an object: coordinate queries that agree with the plain
    walks over the line, and the per-tab-width cache of display points
    (ovim-core/src/text_index.rs). */
module LineIndexQueries {
  import opened Basics
  import opened Search
  import opened Display
  import opened Segments
  import opened DisplaySpecials
  import opened LineIndexes

  /** Display settings remembered per line. */
  const REMEMBERED: nat := 4

  function CheckpointAtMost(grapheme: nat): Checkpoint -> bool {
    (cp: Checkpoint) => cp.grapheme <= grapheme
  }

  function CheckpointUpTo(col: nat): Checkpoint -> bool {
    (cp: Checkpoint) => cp.charCol <= col
  }

  method PositionForGrapheme(u: Unicode, l: Layout, col: nat) returns (position: Checkpoint)
    requires Lawful(u) && Faithful(u, l, l.text)
    ensures position.charCol == GraphemeToChar(Clusters(u, l.text), col)
    ensures position.grapheme == Min(col, |Clusters(u, l.text)|)
  {
    ghost var cs := Clusters(u, l.text);
    var g := Min(col, l.graphemes);
    if l.ascii {
      AsciiLength(u, l.text);
      AsciiClusters(u, l.text, g);
      return Checkpoint(g, g);
    }
    var pos := PartitionPoint(l.checkpoints, CheckpointAtMost(g));
    position := l.checkpoints[if pos > 0 then pos - 1 else 0];
    assert pos > 0 ==> CheckpointAtMost(g)(l.checkpoints[pos - 1]);
    while position.grapheme < g
      invariant Exact(position, cs) && position.grapheme <= g
      decreases g - position.grapheme
    {
      ClusterAt(u, l.text, position.grapheme);
      var _, end := NextGrapheme(u, l.text, false, position);
      position := end;
    }
  }

  /** A lookup never walks more than a stride of clusters from its checkpoint. */
  lemma WalksWithinStride(u: Unicode, l: Layout, g: nat)
    requires Faithful(u, l, l.text) && !l.ascii && g <= |Clusters(u, l.text)|
    ensures var pos := PartitionPoint(l.checkpoints, CheckpointAtMost(g));
            pos > 0 && l.checkpoints[pos - 1].grapheme <= g <= l.checkpoints[pos - 1].grapheme + 256
  {
    var cps := l.checkpoints;
    var pos := PartitionPoint(cps, CheckpointAtMost(g));
    assert CheckpointAtMost(g)(cps[0]);
    assert CheckpointAtMost(g)(cps[pos - 1]);
    if pos < |cps| {
      assert !CheckpointAtMost(g)(cps[pos]);
    }
  }

  method GraphemeAtChar(u: Unicode, l: Layout, charCol: nat) returns (grapheme: nat)
    requires Lawful(u) && Faithful(u, l, l.text)
    ensures grapheme == CharToGrapheme(Clusters(u, l.text), Min(charCol, |l.text|))
  {
    ghost var cs := Clusters(u, l.text);
    var col := Min(charCol, |l.text|);
    if l.ascii {
      AsciiChar(u, l.text, col);
      return col;
    }
    var pos := PartitionPoint(l.checkpoints, CheckpointUpTo(col));
    var position := l.checkpoints[if pos > 0 then pos - 1 else 0];
    assert pos > 0 ==> CheckpointUpTo(col)(l.checkpoints[pos - 1]);
    while position.charCol < |l.text|
      invariant Exact(position, cs) && position.charCol <= col
      decreases |l.text| - position.charCol
    {
      var _, end := NextGrapheme(u, l.text, false, position);
      if col < end.charCol {
        CharInCluster(cs, position.grapheme, col);
        return position.grapheme;
      }
      position := end;
    }
    AtEnd(u, l.text, position);
    CharInCluster(cs, |cs|, col);
    return l.graphemes;
  }

  lemma AsciiChar(u: Unicode, text: string, col: nat)
    requires Lawful(u) && AllAscii(text) && IsLine(text) && col <= |text|
    ensures CharToGrapheme(Clusters(u, text), col) == col
  {
    var cs := Clusters(u, text);
    AsciiLength(u, text);
    AsciiClusters(u, text, col);
    if col < |cs| {
      CharStartGrows(cs, col, col + 1);
    }
    CharInCluster(cs, col, col);
  }

  /** The characters of a line are those of its clusters. */
  lemma LineLength(u: Unicode, text: string)
    ensures CharStart(Clusters(u, text), |Clusters(u, text)|) == |text|
  {
    ClusterAt(u, text, |Clusters(u, text)|);
  }

  /** Clamping a column to the line changes no answer of the walk. */
  lemma ClampedCeil(cs: seq<Cluster>, col: nat)
    requires Sound(cs)
    ensures CeilCluster(cs, col, 0) == CeilCluster(cs, Min(col, CharStart(cs, |cs|)), 0)
  {
    var len := CharStart(cs, |cs|);
    if col > len {
      forall j: nat | j < |cs| ensures CharStart(cs, j) < len {
        CharStartGrows(cs, j, |cs|);
      }
      CeilClusterIs(cs, col, 0, |cs|);
      CeilClusterIs(cs, len, 0, |cs|);
    }
  }

  lemma ClampedGrapheme(cs: seq<Cluster>, col: nat)
    requires Sound(cs)
    ensures CharToGrapheme(cs, col) == CharToGrapheme(cs, Min(col, CharStart(cs, |cs|)))
  {
    var len := CharStart(cs, |cs|);
    if col > len {
      CharInCluster(cs, |cs|, col);
      CharInCluster(cs, |cs|, len);
    }
  }

  /** Snapping a column inside a cluster to the cluster's end finds the boundary
      the walk stops at. */
  lemma SnapUp(cs: seq<Cluster>, col: nat)
    requires Sound(cs) && col <= CharStart(cs, |cs|)
    ensures var g := CharToGrapheme(cs, col);
            CharStart(cs, CeilCluster(cs, col, 0))
            == if GraphemeToChar(cs, g) != col then GraphemeToChar(cs, g + 1) else col
  {
    var g := CharToGrapheme(cs, col);
    GraphemeStartsBy(cs, col, g);
    if g < |cs| {
      CeilInCluster(cs, g, col);
    } else {
      CharStartMonotone(cs, g, |cs|);
      CeilAtEnd(cs);
    }
  }

  lemma CeilAtEnd(cs: seq<Cluster>)
    requires Sound(cs)
    ensures CeilCluster(cs, CharStart(cs, |cs|), 0) == |cs|
  {
    forall j: nat | j < |cs| ensures CharStart(cs, j) < CharStart(cs, |cs|) {
      CharStartGrows(cs, j, |cs|);
    }
    CeilClusterIs(cs, CharStart(cs, |cs|), 0, |cs|);
  }

  lemma GraphemeStartsBy(cs: seq<Cluster>, col: nat, g: nat)
    requires g == CharToGrapheme(cs, col)
    ensures CharStart(cs, g) <= col
  {
    if g > 0 {
      assert EndsBy(cs, col, g - 1);
    }
  }

  ghost predicate PointsOf(points: seq<Point>, cs: seq<Cluster>, tab: nat) {
    tab >= 1 && points == PointsIn(cs, tab, 0, |cs|)
  }

  /** Remembered display points are those of the clusters at their tab width. */
  ghost predicate Remembered(displays: map<nat, seq<Point>>, cs: seq<Cluster>) {
    |displays| <= 4 && forall t :: t in displays ==> PointsOf(displays[t], cs, t)
  }

  lemma RememberOne(displays: map<nat, seq<Point>>, cs: seq<Cluster>, tab: nat, points: seq<Point>)
    requires Remembered(displays, cs) && PointsOf(points, cs, tab) && (tab in displays || |displays| < REMEMBERED)
    ensures Remembered(displays[tab := points], cs)
  {
    assert displays[tab := points].Keys == displays.Keys + {tab};
  }

  class LineIndex {
    const u: Unicode
    const layout: Layout
    var displays: map<nat, seq<Point>>

    ghost predicate Valid()
      reads this`displays
    {
      Lawful(u) && Faithful(u, layout, layout.text) && Remembered(displays, Line())
    }

    /** The clusters of the line this index stands for. */
    function Line(): seq<Cluster> {
      Clusters(u, layout.text)
    }

    constructor New(u: Unicode, text: string)
      requires Lawful(u) && IsLine(text)
      ensures Valid() && this.u == u && layout.text == text
    {
      var l := NewLayout(u, text);
      this.u, this.layout, this.displays := u, l, map[];
    }

    constructor FromEdit(was: LineIndex, start: nat, end: nat, inserted: string)
      requires was.Valid() && start <= end <= |was.layout.text|
      requires IsLine(Splice(was.layout.text, start, end, inserted))
      ensures Valid() && u == was.u && layout.text == Splice(was.layout.text, start, end, inserted)
    {
      var l := EditedLayout(was.u, was.layout, start, end, inserted);
      u, layout, displays := was.u, l, map[];
    }

    function LenChars(): (n: nat)
      reads this`displays
      requires Valid()
      ensures n == CharStart(Line(), |Line()|)
    {
      LineLength(u, layout.text);
      |layout.text|
    }

    function GraphemeCount(): (n: nat)
      reads this`displays
      requires Valid()
      ensures n == |Line()|
    {
      layout.graphemes
    }

    predicate IsPlainAscii()
      reads this`displays
      requires Valid()
    {
      layout.ascii && layout.specials == []
    }

    method GraphemeToCharCol(col: nat) returns (c: nat)
      requires Valid()
      ensures c == GraphemeToChar(Line(), col)
    {
      var position := PositionForGrapheme(u, layout, col);
      return position.charCol;
    }

    method CharToGraphemeCol(col: nat) returns (g: nat)
      requires Valid()
      ensures g == CharToGrapheme(Line(), col)
    {
      g := GraphemeAtChar(u, layout, col);
      LineLength(u, layout.text);
      ClampedGrapheme(Line(), col);
    }

    method DisplayCheckpoints(tabWidth: nat) returns (points: seq<Point>)
      requires Valid()
      modifies this`displays
      ensures Valid()
      ensures points == PointsIn(Line(), if tabWidth > 1 then tabWidth else 1, 0, |Line()|)
    {
      var tab: nat := if tabWidth > 1 then tabWidth else 1;
      if tab in displays {
        return displays[tab];
      }
      points := DisplayPoints(layout.specials, tab, Line());
      var cache: map<nat, seq<Point>> := if |displays| >= REMEMBERED then map[] else displays;
      RememberOne(cache, Line(), tab, points);
      displays := cache[tab := points];
    }

    /** The first boundary at or after a column of the line. */
    method Snapped(charCol: nat) returns (col: nat)
      requires Valid() && charCol <= |layout.text|
      ensures col == CharStart(Line(), CeilCluster(Line(), charCol, 0))
    {
      LineLength(u, layout.text);
      SnapUp(Line(), charCol);
      col := charCol;
      if !layout.ascii {
        var g := CharToGraphemeCol(col);
        var start := GraphemeToCharCol(g);
        if start != col {
          col := GraphemeToCharCol(g + 1);
        }
      } else {
        AsciiChar(u, layout.text, col);
        AsciiClusters(u, layout.text, col);
      }
    }

    /** Agrees with the plain walk at every column, inside clusters and past the end
        included. */
    method CharToDisplayCol(charCol: nat, tabWidth: nat) returns (display: int)
      requires Valid()
      modifies this`displays
      ensures Valid()
      ensures display == CharToDisplay(Line(), charCol, if tabWidth > 1 then tabWidth else 1)
    {
      LineLength(u, layout.text);
      ClampedCeil(Line(), charCol);
      var col := Snapped(Min(charCol, |layout.text|));
      var points := DisplayCheckpoints(tabWidth);
      CellOfCharExact(Line(), if tabWidth > 1 then tabWidth else 1, CeilCluster(Line(), charCol, 0));
      return CellOfChar(points, col);
    }

    /** Agrees with the plain walk at every display column, zero-width clusters
        included. */
    method DisplayToCharCol(displayCol: nat, tabWidth: nat) returns (charCol: nat)
      requires Valid()
      modifies this`displays
      ensures Valid()
      ensures charCol == DisplayToChar(Line(), displayCol, if tabWidth > 1 then tabWidth else 1)
    {
      var points := DisplayCheckpoints(tabWidth);
      ghost var tab := if tabWidth > 1 then tabWidth else 1;
      ghost var k := ClusterOfCell(Line(), displayCol, tab, 0);
      LineLength(u, layout.text);
      CharOfCellExact(Line(), displayCol, tab);
      var pos := PartitionPoint(points, (p: Point) => Passed(p, displayCol));
      if pos < |points| && displayCol >= points[pos].displayStart {
        return points[pos].start;
      }
      var result := CharOfCell(points, displayCol, |layout.text|);
      CharInCluster(Line(), k, result);
      var g := CharToGraphemeCol(result);
      charCol := GraphemeToCharCol(g);
    }

    method DisplayWidthOf(tabWidth: nat) returns (width: int)
      requires Valid()
      modifies this`displays
      ensures Valid()
      ensures width == DisplayStart(Line(), |Line()|, if tabWidth > 1 then tabWidth else 1)
    {
      LineLength(u, layout.text);
      CeilAtEnd(Line());
      width := CharToDisplayCol(|layout.text|, tabWidth);
    }
  }
}
