/** Plain column walks over a line (ovim-core/src/display.rs and
    ovim-core/src/unicode/mod.rs). A line is a sequence of grapheme clusters;
    these walks are what every index of a line has to agree with. */
module Display {
  import Arithmetic

  /** `chars` scalars shown in `width` cells; a tab's cells depend on its column. */
  datatype Cluster = Cluster(chars: nat, width: nat, tab: bool)

  predicate Sound(cs: seq<Cluster>) {
    forall k :: 0 <= k < |cs| ==> cs[k].chars >= 1
  }

  function Cells(c: Cluster, display: nat, tab: nat): nat
    requires tab >= 1
  {
    if c.tab then tab - display % tab else c.width
  }

  /** Character offset at which cluster `k` starts. */
  function CharStart(cs: seq<Cluster>, k: nat): nat
    requires k <= |cs|
  {
    if k == 0 then 0 else CharStart(cs, k - 1) + cs[k - 1].chars
  }

  /** Display column at which cluster `k` starts. */
  function DisplayStart(cs: seq<Cluster>, k: nat, tab: nat): nat
    requires k <= |cs| && tab >= 1
  {
    if k == 0 then 0
    else
      var before := DisplayStart(cs, k - 1, tab);
      before + Cells(cs[k - 1], before, tab)
  }

  lemma {:induction false} CharStartGrows(cs: seq<Cluster>, j: nat, k: nat)
    requires Sound(cs) && j < k <= |cs|
    ensures CharStart(cs, j) < CharStart(cs, k)
    ensures CharStart(cs, k) >= CharStart(cs, j) + (k - j)
  {
    if j < k - 1 {
      CharStartGrows(cs, j, k - 1);
    }
  }

  lemma {:induction false} DisplayStartGrows(cs: seq<Cluster>, j: nat, k: nat, tab: nat)
    requires j <= k <= |cs| && tab >= 1
    ensures DisplayStart(cs, j, tab) <= DisplayStart(cs, k, tab)
  {
    if j < k {
      DisplayStartGrows(cs, j, k - 1, tab);
    }
  }

  /** A tab reaches the next tab stop, which is the first multiple of `tab` behind it;
      any other cluster is as wide as it is shown. */
  lemma TabStops(cs: seq<Cluster>, k: nat, tab: nat)
    requires k < |cs| && tab >= 1
    ensures cs[k].tab ==>
              DisplayStart(cs, k + 1, tab) % tab == 0 &&
              DisplayStart(cs, k, tab) < DisplayStart(cs, k + 1, tab) <= DisplayStart(cs, k, tab) + tab
    ensures !cs[k].tab ==> DisplayStart(cs, k + 1, tab) == DisplayStart(cs, k, tab) + cs[k].width
  {
    var d := DisplayStart(cs, k, tab);
    if cs[k].tab {
      Arithmetic.DivideAndMultiply(d, tab);
      assert d + (tab - d % tab) == (d / tab + 1) * tab;
      Arithmetic.MultipleIsStop(d / tab + 1, tab);
    }
  }

  // ----- where a column lands ---------------------------------------------------------

  /** The first cluster boundary at or after character `col`. */
  function CeilCluster(cs: seq<Cluster>, col: nat, k: nat): (r: nat)
    requires k <= |cs|
    ensures k <= r <= |cs|
    ensures forall j :: k <= j < r ==> CharStart(cs, j) < col
    ensures r < |cs| ==> CharStart(cs, r) >= col
    decreases |cs| - k
  {
    if k == |cs| || CharStart(cs, k) >= col then k else CeilCluster(cs, col, k + 1)
  }

  /** Cluster `j` ends at or before character `col`. */
  predicate EndsBy(cs: seq<Cluster>, col: nat, j: nat)
    requires j < |cs|
  {
    CharStart(cs, j + 1) <= col
  }

  /** The cluster containing character `col`. */
  function ClusterOfChar(cs: seq<Cluster>, col: nat, k: nat): (r: nat)
    requires k <= |cs|
    ensures k <= r <= |cs|
    ensures forall j :: k <= j < r ==> EndsBy(cs, col, j)
    ensures r < |cs| ==> !EndsBy(cs, col, r)
    decreases |cs| - k
  {
    if k == |cs| || !EndsBy(cs, col, k) then k else ClusterOfChar(cs, col, k + 1)
  }

  /** Cluster `j` starts before display column `d` and does not reach past it. */
  predicate LeftOf(cs: seq<Cluster>, d: nat, tab: nat, j: nat)
    requires j < |cs| && tab >= 1
  {
    DisplayStart(cs, j, tab) < d && DisplayStart(cs, j + 1, tab) <= d
  }

  /** The first cluster that starts at or reaches past display column `d`. */
  function ClusterOfCell(cs: seq<Cluster>, d: nat, tab: nat, k: nat): (r: nat)
    requires k <= |cs| && tab >= 1
    ensures k <= r <= |cs|
    ensures forall j :: k <= j < r ==> LeftOf(cs, d, tab, j)
    ensures r < |cs| ==> !LeftOf(cs, d, tab, r)
    decreases |cs| - k
  {
    if k == |cs| || !LeftOf(cs, d, tab, k) then k else ClusterOfCell(cs, d, tab, k + 1)
  }

  /** The walks' answers: a column inside a cluster counts the whole cluster when
      going to cells, and falls back to the cluster's first character otherwise. */
  function CharToDisplay(cs: seq<Cluster>, col: nat, tab: nat): nat
    requires tab >= 1
  {
    DisplayStart(cs, CeilCluster(cs, col, 0), tab)
  }

  function DisplayToChar(cs: seq<Cluster>, d: nat, tab: nat): nat
    requires tab >= 1
  {
    CharStart(cs, ClusterOfCell(cs, d, tab, 0))
  }

  function GraphemeToChar(cs: seq<Cluster>, g: nat): nat {
    CharStart(cs, if g <= |cs| then g else |cs|)
  }

  function CharToGrapheme(cs: seq<Cluster>, col: nat): nat {
    ClusterOfChar(cs, col, 0)
  }

  // ----- the walks themselves ------------------------------------------------------------

  method CharColToDisplayCol(cs: seq<Cluster>, charCol: nat, tab: nat) returns (display: nat)
    requires tab >= 1
    ensures display == CharToDisplay(cs, charCol, tab)
  {
    display := 0;
    var seen := 0;
    for k := 0 to |cs|
      invariant seen == CharStart(cs, k) && display == DisplayStart(cs, k, tab)
      invariant CeilCluster(cs, charCol, 0) == CeilCluster(cs, charCol, k)
    {
      if seen >= charCol {
        break;
      }
      display := display + Cells(cs[k], display, tab);
      seen := seen + cs[k].chars;
    }
  }

  method DisplayColToCharCol(cs: seq<Cluster>, displayCol: nat, tab: nat) returns (seen: nat)
    requires tab >= 1
    ensures seen == DisplayToChar(cs, displayCol, tab)
  {
    seen := 0;
    var current := 0;
    for k := 0 to |cs|
      invariant seen == CharStart(cs, k) && current == DisplayStart(cs, k, tab)
      invariant ClusterOfCell(cs, displayCol, tab, 0) == ClusterOfCell(cs, displayCol, tab, k)
    {
      if current >= displayCol {
        return;
      }
      current := current + Cells(cs[k], current, tab);
      if current > displayCol {
        return;
      }
      seen := seen + cs[k].chars;
    }
  }

  method DisplayWidth(cs: seq<Cluster>, tab: nat) returns (width: nat)
    requires tab >= 1
    ensures width == DisplayStart(cs, |cs|, tab)
  {
    width := 0;
    for k := 0 to |cs|
      invariant width == DisplayStart(cs, k, tab)
    {
      width := width + Cells(cs[k], width, tab);
    }
  }

  method GraphemeToCharCol(cs: seq<Cluster>, grapheme: nat) returns (offset: nat)
    ensures offset == GraphemeToChar(cs, grapheme)
  {
    offset := 0;
    for k := 0 to |cs|
      invariant offset == CharStart(cs, k) && k <= grapheme
    {
      if k == grapheme {
        return;
      }
      offset := offset + cs[k].chars;
    }
  }

  method CharToGraphemeCol(cs: seq<Cluster>, charCol: nat) returns (grapheme: nat)
    ensures grapheme == CharToGrapheme(cs, charCol)
  {
    var seen := 0;
    for k := 0 to |cs|
      invariant seen == CharStart(cs, k)
      invariant ClusterOfChar(cs, charCol, 0) == ClusterOfChar(cs, charCol, k)
    {
      if charCol < seen + cs[k].chars {
        return k;
      }
      seen := seen + cs[k].chars;
    }
    return |cs|;
  }

  // ----- what the walks promise together ----------------------------------------------------

  lemma {:induction false} CeilClusterIs(cs: seq<Cluster>, col: nat, i: nat, k: nat)
    requires i <= k <= |cs|
    requires forall j :: i <= j < k ==> CharStart(cs, j) < col
    requires k < |cs| ==> CharStart(cs, k) >= col
    ensures CeilCluster(cs, col, i) == k
    decreases k - i
  {
    if i < k {
      CeilClusterIs(cs, col, i + 1, k);
    }
  }

  lemma {:induction false} ClusterOfCharIs(cs: seq<Cluster>, col: nat, i: nat, k: nat)
    requires i <= k <= |cs|
    requires forall j :: i <= j < k ==> EndsBy(cs, col, j)
    requires k < |cs| ==> !EndsBy(cs, col, k)
    ensures ClusterOfChar(cs, col, i) == k
    decreases k - i
  {
    if i < k {
      ClusterOfCharIs(cs, col, i + 1, k);
    }
  }

  lemma {:induction false} ClusterOfCellIs(cs: seq<Cluster>, d: nat, tab: nat, i: nat, k: nat)
    requires i <= k <= |cs| && tab >= 1
    requires forall j :: i <= j < k ==> LeftOf(cs, d, tab, j)
    requires k < |cs| ==> !LeftOf(cs, d, tab, k)
    ensures ClusterOfCell(cs, d, tab, i) == k
    decreases k - i
  {
    if i < k {
      ClusterOfCellIs(cs, d, tab, i + 1, k);
    }
  }

  lemma CharStartMonotone(cs: seq<Cluster>, j: nat, k: nat)
    requires Sound(cs) && j <= k <= |cs|
    ensures CharStart(cs, j) <= CharStart(cs, k)
  {
    if j < k {
      CharStartGrows(cs, j, k);
    }
  }

  /** Every character of cluster `k` is found in cluster `k`. */
  lemma CharInCluster(cs: seq<Cluster>, k: nat, col: nat)
    requires Sound(cs) && k <= |cs| && CharStart(cs, k) <= col
    requires k < |cs| ==> col < CharStart(cs, k + 1)
    ensures CharToGrapheme(cs, col) == k
  {
    forall j: nat | j < k ensures EndsBy(cs, col, j) {
      CharStartMonotone(cs, j + 1, k);
    }
    ClusterOfCharIs(cs, col, 0, k);
  }

  /** The first boundary at or after a character of cluster `k` is its end, or its
      start for its first character. */
  lemma CeilInCluster(cs: seq<Cluster>, k: nat, col: nat)
    requires Sound(cs) && k < |cs| && CharStart(cs, k) <= col < CharStart(cs, k + 1)
    ensures CeilCluster(cs, col, 0) == if col == CharStart(cs, k) then k else k + 1
  {
    forall j: nat | j < k ensures CharStart(cs, j) < col {
      CharStartGrows(cs, j, k);
    }
    CeilClusterIs(cs, col, 0, if col == CharStart(cs, k) then k else k + 1);
  }

  /** A column inside a cluster counts the whole cluster: it has the cluster's own display
      column exactly at its first character, or if the cluster is invisible. */
  lemma InsideCountsWhole(cs: seq<Cluster>, k: nat, col: nat, tab: nat)
    requires Sound(cs) && k < |cs| && CharStart(cs, k) <= col < CharStart(cs, k + 1) && tab >= 1
    ensures CharToDisplay(cs, col, tab) == DisplayStart(cs, k, tab) <==>
            col == CharStart(cs, k) || (!cs[k].tab && cs[k].width == 0)
  {
    CeilInCluster(cs, k, col);
  }

  /** Grapheme and character columns of boundaries are inverse to each other. */
  lemma BoundaryOfChar(cs: seq<Cluster>, k: nat)
    requires Sound(cs) && k <= |cs|
    ensures CharToGrapheme(cs, GraphemeToChar(cs, k)) == k
  {
    if k < |cs| {
      CharStartGrows(cs, k, k + 1);
    }
    CharInCluster(cs, k, CharStart(cs, k));
  }

  /** Going to cells and back returns the cluster's first character whenever no
      cluster is invisible. */
  lemma DisplayRoundTrip(cs: seq<Cluster>, k: nat, tab: nat)
    requires Sound(cs) && k <= |cs| && tab >= 1
    requires forall j :: 0 <= j < |cs| ==> cs[j].tab || cs[j].width >= 1
    ensures DisplayToChar(cs, CharToDisplay(cs, CharStart(cs, k), tab), tab) == CharStart(cs, k)
  {
    forall j: nat | j < k ensures CharStart(cs, j) < CharStart(cs, k) {
      CharStartGrows(cs, j, k);
    }
    CeilClusterIs(cs, CharStart(cs, k), 0, k);
    var d := DisplayStart(cs, k, tab);
    forall j: nat | j < k ensures LeftOf(cs, d, tab, j) {
      DisplayStartGrows(cs, j + 1, k, tab);
      VisibleGrows(cs, j, tab);
    }
    ClusterOfCellIs(cs, d, tab, 0, k);
  }

  lemma VisibleGrows(cs: seq<Cluster>, j: nat, tab: nat)
    requires j < |cs| && tab >= 1 && (cs[j].tab || cs[j].width >= 1)
    ensures DisplayStart(cs, j, tab) < DisplayStart(cs, j + 1, tab)
  {
  }

  /** A cell belongs to the cluster shown in it: the first one that begins there, visible or
      not, or the one that covers it; the end of the line past its last cell. */
  lemma CellNamesCluster(cs: seq<Cluster>, d: nat, k: nat, tab: nat)
    requires k <= |cs| && tab >= 1 && DisplayStart(cs, k, tab) <= d
    requires forall j :: 0 <= j < k ==> DisplayStart(cs, j, tab) < d
    requires k == |cs| || DisplayStart(cs, k, tab) == d || d < DisplayStart(cs, k + 1, tab)
    ensures DisplayToChar(cs, d, tab) == CharStart(cs, k)
  {
    forall j: nat | j < k ensures LeftOf(cs, d, tab, j) {
      DisplayStartGrows(cs, j + 1, k, tab);
    }
    ClusterOfCellIs(cs, d, tab, 0, k);
  }

  /** Columns past the end of the line stand for its end. */
  lemma PastTheEnd(cs: seq<Cluster>, col: nat, tab: nat)
    requires Sound(cs) && tab >= 1
    ensures col >= CharStart(cs, |cs|) ==> CharToGrapheme(cs, col) == |cs|
    ensures col >= CharStart(cs, |cs|) ==> CharToDisplay(cs, col, tab) == DisplayStart(cs, |cs|, tab)
    ensures col >= |cs| ==> GraphemeToChar(cs, col) == CharStart(cs, |cs|)
  {
    if col >= CharStart(cs, |cs|) {
      CharInCluster(cs, |cs|, col);
      forall j: nat | j < |cs| ensures CharStart(cs, j) < col {
        CharStartGrows(cs, j, |cs|);
      }
      CeilClusterIs(cs, col, 0, |cs|);
    }
  }
}
