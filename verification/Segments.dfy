/** Grapheme segmentation, abstractly: whether a cluster ends before a character
    depends only on the text up to and including that character, as the rules of
    section 3.1.1 of UAX #29 do. */
module Segments {
  import opened Display

  /** `breaks(p)`: is there a boundary before the last character of prefix `p`?
      `width(g)`: cells of a cluster, when it is not a lone control character. */
  datatype Unicode = Unicode(breaks: string -> bool, width: string -> nat)

  predicate Ascii(c: char) {
    c as int < 128
  }

  predicate AllAscii(s: string) {
    forall k :: 0 <= k < |s| ==> Ascii(s[k])
  }

  /** Shown in caret notation, two cells wide. */
  predicate IsControl(c: char) {
    (c as int <= 0x1F && c != '\t' && c != '\n') || c as int == 0x7F
  }

  predicate IsAsciiControl(c: char) {
    c as int <= 0x1F || c as int == 0x7F
  }

  /** A line never holds its own terminator. */
  predicate IsLine(s: string) {
    '\n' !in s
  }

  ghost predicate Lawful(u: Unicode) {
    (forall p :: p != "" && AllAscii(p) && IsLine(p) ==> u.breaks(p)) &&
    (forall c :: Ascii(c) && !IsAsciiControl(c) ==> u.width([c]) == 1)
  }

  function GraphemeWidth(u: Unicode, g: string): nat {
    if |g| == 1 && IsControl(g[0]) then 2 else u.width(g)
  }

  function ClusterOf(u: Unicode, g: string): Cluster {
    Cluster(|g|, GraphemeWidth(u, g), g == "\t")
  }

  /** The cluster boundary after `i`. */
  function NextBoundary(u: Unicode, text: string, i: nat): (j: nat)
    requires i < |text|
    ensures i < j <= |text|
    decreases |text| - i
  {
    if i + 1 == |text| || u.breaks(text[..i + 2]) then i + 1 else NextBoundary(u, text, i + 1)
  }

  function ClustersFrom(u: Unicode, text: string, i: nat): (cs: seq<Cluster>)
    requires i <= |text|
    ensures Sound(cs)
    decreases |text| - i
  {
    if i == |text| then []
    else
      var j := NextBoundary(u, text, i);
      [ClusterOf(u, text[i..j])] + ClustersFrom(u, text, j)
  }

  function Clusters(u: Unicode, text: string): (cs: seq<Cluster>)
    ensures Sound(cs)
  {
    ClustersFrom(u, text, 0)
  }

  lemma {:induction false} CharStartCons(c: Cluster, rest: seq<Cluster>, k: nat)
    requires k <= |rest|
    ensures CharStart([c] + rest, k + 1) == c.chars + CharStart(rest, k)
  {
    if k > 0 {
      CharStartCons(c, rest, k - 1);
    } else {
      assert CharStart([c] + rest, 1) == CharStart([c] + rest, 0) + c.chars;
    }
  }

  /** Cluster `k` of those from `i` on runs to the next boundary, and the last one
      to the end. */
  ghost predicate SegmentedAt(u: Unicode, text: string, cs: seq<Cluster>, i: nat, k: nat)
    requires k <= |cs|
  {
    var s := i + CharStart(cs, k);
    if k == |cs| then s == |text|
    else s < |text| && NextBoundary(u, text, s) == s + cs[k].chars && s + cs[k].chars <= |text| &&
         cs[k] == ClusterOf(u, text[s..s + cs[k].chars])
  }

  lemma SegmentedCons(u: Unicode, text: string, c: Cluster, rest: seq<Cluster>, i: nat, j: nat, k: nat)
    requires k <= |rest| && j == i + c.chars && SegmentedAt(u, text, rest, j, k)
    ensures SegmentedAt(u, text, [c] + rest, i, k + 1)
  {
    CharStartCons(c, rest, k);
    assert k < |rest| ==> ([c] + rest)[k + 1] == rest[k];
  }

  lemma {:induction false} ClustersFromAt(u: Unicode, text: string, i: nat, k: nat)
    requires i <= |text|
    requires k <= |ClustersFrom(u, text, i)|
    ensures SegmentedAt(u, text, ClustersFrom(u, text, i), i, k)
    decreases |text| - i
  {
    if i < |text| && k > 0 {
      var j := NextBoundary(u, text, i);
      ClustersFromAt(u, text, j, k - 1);
      SegmentedCons(u, text, ClusterOf(u, text[i..j]), ClustersFrom(u, text, j), i, j, k - 1);
    }
  }

  /** Cluster `k` runs from its start to the next boundary, and the clusters end
      where the text does. */
  lemma ClusterAt(u: Unicode, text: string, k: nat)
    requires k <= |Clusters(u, text)|
    ensures SegmentedAt(u, text, Clusters(u, text), 0, k)
  {
    ClustersFromAt(u, text, 0, k);
  }

  // ----- locality of an edit ---------------------------------------------------------------

  lemma {:induction false} NextBoundaryAgrees(u: Unicode, a: string, b: string, shared: nat, i: nat)
    requires shared <= |a| && shared <= |b| && a[..shared] == b[..shared]
    requires i < |a| && NextBoundary(u, a, i) < shared
    ensures NextBoundary(u, b, i) == NextBoundary(u, a, i)
    decreases |a| - i
  {
    assert a[..i + 2] == a[..shared][..i + 2] == b[..i + 2];
    if !(i + 1 == |a| || u.breaks(a[..i + 2])) {
      NextBoundaryAgrees(u, a, b, shared, i + 1);
    }
  }

  lemma SharedSlice(a: string, b: string, shared: nat, s: nat, e: nat)
    requires s <= e <= shared <= |a| && shared <= |b| && a[..shared] == b[..shared]
    ensures a[s..e] == b[s..e]
  {
    assert a[..shared][s..e] == a[s..e];
    assert b[..shared][s..e] == b[s..e];
  }

  lemma SharedNext(u: Unicode, a: string, b: string, shared: nat, k: nat)
    requires shared <= |a| && shared <= |b| && a[..shared] == b[..shared]
    requires k < |Clusters(u, a)| && CharStart(Clusters(u, a), k + 1) < shared
    requires k <= |Clusters(u, b)| && CharStart(Clusters(u, b), k) == CharStart(Clusters(u, a), k)
    ensures k < |Clusters(u, b)| && Clusters(u, b)[k] == Clusters(u, a)[k]
    ensures CharStart(Clusters(u, b), k + 1) == CharStart(Clusters(u, a), k + 1)
  {
    var s, e := CharStart(Clusters(u, a), k), CharStart(Clusters(u, a), k + 1);
    ClusterAt(u, a, k);
    ClusterAt(u, b, k);
    NextBoundaryAgrees(u, a, b, shared, s);
    SharedSlice(a, b, shared, s, e);
  }

  /** Two texts with a common prefix have the same clusters up to any boundary
      strictly inside it: the boundary at its very end may still move. */
  lemma {:induction false} SharedClusters(u: Unicode, a: string, b: string, shared: nat, k: nat)
    requires shared <= |a| && shared <= |b| && a[..shared] == b[..shared]
    requires k <= |Clusters(u, a)| && (k > 0 ==> CharStart(Clusters(u, a), k) < shared)
    ensures k <= |Clusters(u, b)|
    ensures CharStart(Clusters(u, b), k) == CharStart(Clusters(u, a), k)
    ensures forall j :: 0 <= j < k ==> Clusters(u, b)[j] == Clusters(u, a)[j]
  {
    if k > 0 {
      SharedClusters(u, a, b, shared, k - 1);
      SharedNext(u, a, b, shared, k - 1);
    }
  }

  // ----- ASCII lines ----------------------------------------------------------------------------

  /** Every character of an ASCII line is its own cluster. */
  lemma {:induction false} AsciiClusters(u: Unicode, text: string, k: nat)
    requires Lawful(u) && AllAscii(text) && IsLine(text) && k <= |text|
    ensures k <= |Clusters(u, text)| && CharStart(Clusters(u, text), k) == k
    ensures k < |text| ==> k < |Clusters(u, text)| && Clusters(u, text)[k] == ClusterOf(u, [text[k]])
  {
    if k > 0 {
      AsciiClusters(u, text, k - 1);
      assert CharStart(Clusters(u, text), k) == k;
    }
    ClusterAt(u, text, k);
    if k < |text| {
      AsciiBoundary(u, text, k);
      assert text[k..k + 1] == [text[k]];
    }
  }

  lemma AsciiBoundary(u: Unicode, text: string, i: nat)
    requires Lawful(u) && AllAscii(text) && IsLine(text) && i < |text|
    ensures NextBoundary(u, text, i) == i + 1
  {
    if i + 1 < |text| {
      assert AllAscii(text[..i + 2]) && IsLine(text[..i + 2]);
    }
  }

  lemma AsciiLength(u: Unicode, text: string)
    requires Lawful(u) && AllAscii(text) && IsLine(text)
    ensures |Clusters(u, text)| == |text|
  {
    AsciiClusters(u, text, |text|);
    ClusterAt(u, text, |Clusters(u, text)|);
    if |text| < |Clusters(u, text)| {
      CharStartGrows(Clusters(u, text), |text|, |Clusters(u, text)|);
    }
  }

  /** On an ASCII line a tab goes to the next stop, a control character takes two cells
      and any other character one. */
  lemma AsciiCells(u: Unicode, text: string, k: nat, tab: nat)
    requires Lawful(u) && AllAscii(text) && IsLine(text) && k < |text| && tab >= 1
    ensures |Clusters(u, text)| == |text|
    ensures var from, to := DisplayStart(Clusters(u, text), k, tab), DisplayStart(Clusters(u, text), k + 1, tab);
            if text[k] == '\t' then to % tab == 0 && from < to <= from + tab
            else if text[k] as int < 32 || text[k] as int == 127 then to == from + 2
            else to == from + 1
  {
    AsciiLength(u, text);
    AsciiClusters(u, text, k);
    TabStops(Clusters(u, text), k, tab);
    assert text[k] != '\n';
    assert [text[k]] == "\t" <==> text[k] == '\t';
  }

  // ----- where clusters end ---------------------------------------------------------------------

  /** The text breaks before character `b`. */
  predicate BreaksAt(u: Unicode, text: string, b: nat) {
    b < |text| && u.breaks(text[..b + 1])
  }

  lemma {:induction false} NextBoundaryExactly(u: Unicode, text: string, i: nat)
    requires i < |text|
    ensures var j := NextBoundary(u, text, i);
            (j < |text| ==> BreaksAt(u, text, j)) && forall b :: i < b < j ==> !BreaksAt(u, text, b)
    decreases |text| - i
  {
    if !(i + 1 == |text| || u.breaks(text[..i + 2])) {
      NextBoundaryExactly(u, text, i + 1);
    }
  }

  /** A cluster ends where the segmentation breaks the text, or where the text ends, and
      nowhere inside a cluster does it break it. */
  lemma ClustersEndAtBreaks(u: Unicode, text: string, k: nat)
    requires k < |Clusters(u, text)|
    ensures var from, to := CharStart(Clusters(u, text), k), CharStart(Clusters(u, text), k + 1);
            from < to <= |text| && (to < |text| ==> BreaksAt(u, text, to)) &&
            forall b :: from < b < to ==> !BreaksAt(u, text, b)
    ensures CharStart(Clusters(u, text), |Clusters(u, text)|) == |text|
  {
    ClusterAt(u, text, k);
    ClusterAt(u, text, |Clusters(u, text)|);
    NextBoundaryExactly(u, text, CharStart(Clusters(u, text), k));
  }
}
