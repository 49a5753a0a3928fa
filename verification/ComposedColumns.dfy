/** Composed display columns, decorations included, of a line's cluster boundaries, and
    what is laid out ahead of them (ovim-core/src/line_layout.rs). */
module ComposedColumns {
  import opened Basics
  import opened Display
  import opened Wraps
  import opened EagerWalks
  import opened RowPositions

  predicate Sorted(runs: seq<Run>) {
    forall i, j :: 0 <= i < j < |runs| ==> runs[i].anchor <= runs[j].anchor
  }

  function WidthTo(runs: seq<Run>, n: nat): nat
    requires n <= |runs|
  {
    if n == 0 then 0 else WidthTo(runs, n - 1) + runs[n - 1].width
  }

  /** `inline_width_before`: decorations left of a character; those at the very end
      of the line are right of it. */
  function InlineBefore(runs: seq<Run>, col: nat, len: nat): nat {
    if runs == [] then 0
    else
      var run := runs[|runs| - 1];
      InlineBefore(runs[..|runs| - 1], col, len) +
      if run.anchor < col || (run.anchor == col && run.anchor < len) then run.width else 0
  }

  /** The composed column of a character, as positions are computed from. */
  function Composed(cs: seq<Cluster>, runs: seq<Run>, tab: nat, col: nat): nat
    requires tab >= 1
  {
    CharToDisplay(cs, col, tab) + InlineBefore(runs, col, CharStart(cs, |cs|))
  }

  /** If the decorations before `n` are exactly those left of `col`, so is their width. */
  lemma {:induction false} InlineIsPrefix(runs: seq<Run>, col: nat, len: nat, n: nat)
    requires n <= |runs|
    requires forall k :: 0 <= k < |runs| ==>
               (k < n <==> runs[k].anchor < col || (runs[k].anchor == col && runs[k].anchor < len))
    ensures InlineBefore(runs, col, len) == WidthTo(runs, n)
  {
    if runs != [] {
      var rest := runs[..|runs| - 1];
      InlineIsPrefix(rest, col, len, if n == |runs| then n - 1 else n);
      WidthToPrefix(runs, rest, if n == |runs| then n - 1 else n);
    }
  }

  lemma {:induction false} WidthToPrefix(runs: seq<Run>, prefix: seq<Run>, n: nat)
    requires n <= |prefix| && prefix <= runs
    ensures WidthTo(runs, n) == WidthTo(prefix, n)
  {
    if n > 0 {
      WidthToPrefix(runs, prefix, n - 1);
    }
  }

  lemma {:induction false} InlineAtMost(runs: seq<Run>, col: nat, len: nat)
    ensures InlineBefore(runs, col, len) <= WidthTo(runs, |runs|)
  {
    if runs != [] {
      InlineAtMost(runs[..|runs| - 1], col, len);
      WidthToPrefix(runs, runs[..|runs| - 1], |runs| - 1);
    }
  }

  // ----- atoms and their widths -----------------------------------------------------------

  function Widths(atoms: seq<Atom>): nat {
    if atoms == [] then 0 else atoms[0].width + Widths(atoms[1..])
  }

  lemma {:induction false} WidthsConcat(a: seq<Atom>, b: seq<Atom>)
    ensures Widths(a + b) == Widths(a) + Widths(b)
  {
    if a == [] {
      assert a + b == b;
    } else {
      assert (a + b)[1..] == a[1..] + b;
      WidthsConcat(a[1..], b);
    }
  }

  lemma {:induction false} LayFlat(s: Laid, atoms: seq<Atom>, width: nat)
    ensures Lay(s, atoms, width).flat == s.flat + Widths(atoms)
    decreases |atoms|
  {
    if atoms != [] {
      LayFlat(Step(s, atoms[0], width), atoms[1..], width);
    }
  }

  lemma {:induction false} UnitsWidth(n: nat, at: nat)
    ensures Widths(Units(n, at)) == n
  {
    if n > 0 {
      UnitsTail(n, at);
      UnitsWidth(n - 1, at);
    }
  }

  lemma {:induction false} RunsWidth(runs: seq<Run>, from: nat, to: nat, at: nat)
    requires from <= to <= |runs|
    ensures WidthTo(runs, to) == WidthTo(runs, from) + Widths(RunAtoms(runs, from, to, at))
    decreases |runs| - from
  {
    if from < to {
      RunsWidth(runs, from + 1, to, at);
      WidthsConcat(Units(runs[from].width, at), RunAtoms(runs, from + 1, to, at));
      UnitsWidth(runs[from].width, at);
    }
  }

  lemma ClusterWidth(cs: seq<Cluster>, k: nat, tab: nat)
    requires k < |cs| && tab >= 1
    ensures DisplayStart(cs, k + 1, tab) == DisplayStart(cs, k, tab) + Widths(ClusterAtoms(cs, k, tab))
  {
    UnitsWidth(Cells(cs[k], DisplayStart(cs, k, tab), tab), CharStart(cs, k));
    if !cs[k].tab {
      assert ClusterAtoms(cs, k, tab)[1..] == [];
    }
  }

  // ----- cutting the content at a cluster ---------------------------------------------------------

  /** Decorations used before cluster `k` and those due at it. */
  function UsedBefore(cs: seq<Cluster>, runs: seq<Run>, k: nat): (r: nat)
    requires k <= |cs|
    ensures r <= |runs|
  {
    if k == 0 then 0 else Due(runs, UsedBefore(cs, runs, k - 1), CharStart(cs, k - 1))
  }

  /** Everything laid out before cluster `k` and its decorations. */
  function Head(cs: seq<Cluster>, runs: seq<Run>, tab: nat, k: nat): seq<Atom>
    requires k <= |cs| && tab >= 1
    decreases k, 0
  {
    if k == 0 then [] else HeadWithDue(cs, runs, tab, k - 1) + ClusterAtoms(cs, k - 1, tab)
  }

  /** ... and its decorations. */
  function HeadWithDue(cs: seq<Cluster>, runs: seq<Run>, tab: nat, k: nat): seq<Atom>
    requires k < |cs| && tab >= 1
    decreases k, 1
  {
    Head(cs, runs, tab, k) + RunAtoms(runs, UsedBefore(cs, runs, k), UsedBefore(cs, runs, k + 1), CharStart(cs, k))
  }

  function Cut(cs: seq<Cluster>, runs: seq<Run>, tab: nat, k: nat): seq<Atom>
    requires k <= |cs| && tab >= 1
  {
    Head(cs, runs, tab, k) + ContentFrom(cs, runs, tab, k, UsedBefore(cs, runs, k))
  }

  lemma CutStep(cs: seq<Cluster>, runs: seq<Run>, tab: nat, k: nat)
    requires k < |cs| && tab >= 1
    ensures Cut(cs, runs, tab, k) == Cut(cs, runs, tab, k + 1)
  {
    var before, due := UsedBefore(cs, runs, k), UsedBefore(cs, runs, k + 1);
    var placed, content := RunAtoms(runs, before, due, CharStart(cs, k)), ClusterAtoms(cs, k, tab);
    var rest := ContentFrom(cs, runs, tab, k + 1, due);
    Associate(Head(cs, runs, tab, k), placed, content + rest);
    Associate(Head(cs, runs, tab, k) + placed, content, rest);
    assert Head(cs, runs, tab, k + 1) == HeadWithDue(cs, runs, tab, k) + ClusterAtoms(cs, k, tab);
    assert ContentFrom(cs, runs, tab, k, before)
        == RunAtoms(runs, before, due, CharStart(cs, k)) +
           (ClusterAtoms(cs, k, tab) + ContentFrom(cs, runs, tab, k + 1, due));
  }

  lemma CutStart(cs: seq<Cluster>, runs: seq<Run>, tab: nat)
    requires tab >= 1
    ensures Cut(cs, runs, tab, 0) == Content(cs, runs, tab)
  {
  }

  predicate CutsAlike(cs: seq<Cluster>, runs: seq<Run>, tab: nat, k: nat)
    requires k <= |cs| && tab >= 1
  {
    Cut(cs, runs, tab, k) == Cut(cs, runs, tab, 0)
  }

  lemma CutsAgree(cs: seq<Cluster>, runs: seq<Run>, tab: nat, k: nat)
    requires k <= |cs| && tab >= 1
    ensures CutsAlike(cs, runs, tab, k)
  {
    forall i: nat | i < k ensures Cut(cs, runs, tab, i) == Cut(cs, runs, tab, i + 1) {
      CutStep(cs, runs, tab, i);
    }
    SameAlong((i: nat) => if i <= k then Cut(cs, runs, tab, i) else [], k);
  }

  lemma CutContent(cs: seq<Cluster>, runs: seq<Run>, tab: nat, k: nat)
    requires k <= |cs| && tab >= 1
    ensures Content(cs, runs, tab) == Cut(cs, runs, tab, k)
  {
    CutStart(cs, runs, tab);
    CutsAgree(cs, runs, tab, k);
  }

  lemma CutUsed(cs: seq<Cluster>, runs: seq<Run>, k: nat)
    requires k <= |cs|
    ensures UsedFrom(cs, runs, 0, 0) == UsedFrom(cs, runs, k, UsedBefore(cs, runs, k))
  {
    forall i: nat | i < k ensures UsedAt(cs, runs, i) == UsedAt(cs, runs, i + 1) {
      CutUsedStep(cs, runs, i);
    }
    SameAlong((i: nat) => if i <= k then UsedAt(cs, runs, i) else 0, k);
  }

  /** The decorations used on the line, counted from cluster `k` on. */
  function UsedAt(cs: seq<Cluster>, runs: seq<Run>, k: nat): nat
    requires k <= |cs|
  {
    UsedFrom(cs, runs, k, UsedBefore(cs, runs, k))
  }

  lemma CutUsedStep(cs: seq<Cluster>, runs: seq<Run>, k: nat)
    requires k < |cs|
    ensures UsedAt(cs, runs, k) == UsedAt(cs, runs, k + 1)
  {
  }

  lemma DueWidth(cs: seq<Cluster>, runs: seq<Run>, tab: nat, k: nat)
    requires k < |cs| && tab >= 1
    requires Widths(Head(cs, runs, tab, k)) == DisplayStart(cs, k, tab) + WidthTo(runs, UsedBefore(cs, runs, k))
    ensures Widths(HeadWithDue(cs, runs, tab, k))
            == DisplayStart(cs, k, tab) + WidthTo(runs, UsedBefore(cs, runs, k + 1))
  {
    RunsWidth(runs, UsedBefore(cs, runs, k), UsedBefore(cs, runs, k + 1), CharStart(cs, k));
    WidthsConcat(Head(cs, runs, tab, k),
                 RunAtoms(runs, UsedBefore(cs, runs, k), UsedBefore(cs, runs, k + 1), CharStart(cs, k)));
  }

  predicate HeadMeasures(cs: seq<Cluster>, runs: seq<Run>, tab: nat, k: nat)
    requires k <= |cs| && tab >= 1
  {
    Widths(Head(cs, runs, tab, k)) == DisplayStart(cs, k, tab) + WidthTo(runs, UsedBefore(cs, runs, k))
  }

  lemma NextHeadWidth(cs: seq<Cluster>, runs: seq<Run>, tab: nat, k: nat)
    requires k < |cs| && tab >= 1 && HeadMeasures(cs, runs, tab, k)
    ensures HeadMeasures(cs, runs, tab, k + 1)
  {
    DueWidth(cs, runs, tab, k);
    WidthsConcat(HeadWithDue(cs, runs, tab, k), ClusterAtoms(cs, k, tab));
    ClusterWidth(cs, k, tab);
  }

  lemma {:induction false} HeadWidth(cs: seq<Cluster>, runs: seq<Run>, tab: nat, k: nat)
    requires k <= |cs| && tab >= 1
    ensures HeadMeasures(cs, runs, tab, k)
  {
    if k > 0 {
      HeadWidth(cs, runs, tab, k - 1);
      NextHeadWidth(cs, runs, tab, k - 1);
    }
  }

  // ----- composed columns are layout columns ---------------------------------------------------------

  /** In order, the decorations used before cluster `k` are those anchored up to the
      cluster before it. */
  lemma {:induction false} UsedAreAnchored(cs: seq<Cluster>, runs: seq<Run>, k: nat, i: nat)
    requires Sound(cs) && Sorted(runs) && 0 < k <= |cs| && i < |runs|
    ensures i < UsedBefore(cs, runs, k) <==> runs[i].anchor <= CharStart(cs, k - 1)
  {
    var from, due := UsedBefore(cs, runs, k - 1), UsedBefore(cs, runs, k);
    if i < from {
      UsedAreAnchored(cs, runs, k - 1, i);
      CharStartGrows(cs, k - 2, k - 1);
    }
  }

  /** What is laid out before the cell a character is shown at; for the end of the
      line, all of its content. */
  function Ahead(cs: seq<Cluster>, runs: seq<Run>, tab: nat, k: nat): seq<Atom>
    requires k <= |cs| && tab >= 1
  {
    if k < |cs| then HeadWithDue(cs, runs, tab, k) else Content(cs, runs, tab)
  }

  function Rest(cs: seq<Cluster>, runs: seq<Run>, tab: nat, k: nat): seq<Atom>
    requires k <= |cs| && tab >= 1
  {
    if k < |cs| then ClusterAtoms(cs, k, tab) + ContentFrom(cs, runs, tab, k + 1, UsedBefore(cs, runs, k + 1)) else []
  }

  lemma AheadAndRest(cs: seq<Cluster>, runs: seq<Run>, tab: nat, k: nat)
    requires k <= |cs| && tab >= 1
    ensures Content(cs, runs, tab) == Ahead(cs, runs, tab, k) + Rest(cs, runs, tab, k)
  {
    if k < |cs| {
      CutContent(cs, runs, tab, k);
      Associate(Head(cs, runs, tab, k),
                     RunAtoms(runs, UsedBefore(cs, runs, k), UsedBefore(cs, runs, k + 1), CharStart(cs, k)),
                     Rest(cs, runs, tab, k));
    }
  }

  lemma InlineAtCluster(cs: seq<Cluster>, runs: seq<Run>, k: nat)
    requires Sound(cs) && Sorted(runs) && k < |cs|
    ensures InlineBefore(runs, CharStart(cs, k), CharStart(cs, |cs|)) == WidthTo(runs, UsedBefore(cs, runs, k + 1))
  {
    var len, col := CharStart(cs, |cs|), CharStart(cs, k);
    CharStartGrows(cs, k, |cs|);
    forall i: nat | i < |runs|
      ensures i < UsedBefore(cs, runs, k + 1)
              <==> runs[i].anchor < col || (runs[i].anchor == col && runs[i].anchor < len)
    {
      UsedAreAnchored(cs, runs, k + 1, i);
    }
    InlineIsPrefix(runs, col, len, UsedBefore(cs, runs, k + 1));
  }

  /** The composed column of a cluster is the width laid out ahead of it. */
  lemma ComposedIsAhead(cs: seq<Cluster>, runs: seq<Run>, tab: nat, k: nat)
    requires Sound(cs) && Sorted(runs) && k < |cs| && tab >= 1
    ensures Composed(cs, runs, tab, CharStart(cs, k)) == Widths(Ahead(cs, runs, tab, k))
  {
    CeilAt(cs, k);
    HeadWidth(cs, runs, tab, k);
    InlineAtCluster(cs, runs, k);
    DueWidth(cs, runs, tab, k);
  }

  lemma CeilAt(cs: seq<Cluster>, k: nat)
    requires Sound(cs) && k <= |cs|
    ensures CeilCluster(cs, CharStart(cs, k), 0) == k
  {
    forall j: nat | j < k ensures CharStart(cs, j) < CharStart(cs, k) {
      CharStartGrows(cs, j, k);
    }
    CeilClusterIs(cs, CharStart(cs, k), 0, k);
  }

  // ----- the end of the line --------------------------------------------------------------------

  /** Cells of the trailing decorations that are anchored before the end of the line,
      inside its last cluster. */
  function InnerCells(cs: seq<Cluster>, runs: seq<Run>): nat {
    InlineBefore(runs[UsedFrom(cs, runs, 0, 0)..], CharStart(cs, |cs|), CharStart(cs, |cs|))
  }

  lemma {:induction false} InlineConcat(a: seq<Run>, b: seq<Run>, col: nat, len: nat)
    ensures InlineBefore(a + b, col, len) == InlineBefore(a, col, len) + InlineBefore(b, col, len)
  {
    if b == [] {
      assert a + b == a;
    } else {
      assert (a + b)[..|a + b| - 1] == a + b[..|b| - 1];
      InlineConcat(a, b[..|b| - 1], col, len);
    }
  }

  lemma {:induction false} InlineFrom(runs: seq<Run>, from: nat, col: nat, len: nat)
    requires from <= |runs|
    ensures InlineBefore(runs[from..], col, len) <= TotalWidth(runs, from)
    decreases |runs| - from
  {
    if from < |runs| {
      assert runs[from..] == [runs[from]] + runs[from + 1..];
      InlineConcat([runs[from]], runs[from + 1..], col, len);
      assert [runs[from]][..0] == [];
      InlineFrom(runs, from + 1, col, len);
    }
  }

  lemma InnerIsTrailing(cs: seq<Cluster>, runs: seq<Run>)
    ensures InnerCells(cs, runs) <= TotalWidth(runs, UsedFrom(cs, runs, 0, 0))
  {
    InlineFrom(runs, UsedFrom(cs, runs, 0, 0), CharStart(cs, |cs|), CharStart(cs, |cs|));
  }

  lemma UsedBeforeEnd(cs: seq<Cluster>, runs: seq<Run>)
    requires Sound(cs) && Sorted(runs)
    ensures var used, len := UsedBefore(cs, runs, |cs|), CharStart(cs, |cs|);
            InlineBefore(runs[..used], len, len) == WidthTo(runs, used)
  {
    var n, used, len := |cs|, UsedBefore(cs, runs, |cs|), CharStart(cs, |cs|);
    forall i: nat | i < used ensures runs[..used][i].anchor < len {
      UsedAreAnchored(cs, runs, n, i);
      CharStartGrows(cs, n - 1, n);
    }
    InlineIsPrefix(runs[..used], len, len, used);
    WidthToPrefix(runs, runs[..used], used);
  }

  lemma InlineAtEnd(cs: seq<Cluster>, runs: seq<Run>)
    requires Sound(cs) && Sorted(runs)
    ensures InlineBefore(runs, CharStart(cs, |cs|), CharStart(cs, |cs|))
            == WidthTo(runs, UsedBefore(cs, runs, |cs|)) + InnerCells(cs, runs)
  {
    UsedInAll(cs, runs);
    InlineSplit(runs, UsedBefore(cs, runs, |cs|), CharStart(cs, |cs|), CharStart(cs, |cs|));
    UsedBeforeEnd(cs, runs);
  }

  lemma UsedInAll(cs: seq<Cluster>, runs: seq<Run>)
    ensures UsedFrom(cs, runs, 0, 0) == UsedBefore(cs, runs, |cs|)
  {
    CutUsed(cs, runs, |cs|);
  }

  lemma InlineSplit(runs: seq<Run>, k: nat, col: nat, len: nat)
    requires k <= |runs|
    ensures InlineBefore(runs, col, len) == InlineBefore(runs[..k], col, len) + InlineBefore(runs[k..], col, len)
  {
    assert runs == runs[..k] + runs[k..];
    InlineConcat(runs[..k], runs[k..], col, len);
  }

  lemma ContentWidth(cs: seq<Cluster>, runs: seq<Run>, tab: nat)
    requires tab >= 1
    ensures Widths(Content(cs, runs, tab)) == DisplayStart(cs, |cs|, tab) + WidthTo(runs, UsedBefore(cs, runs, |cs|))
  {
    HeadWidth(cs, runs, tab, |cs|);
    CutContent(cs, runs, tab, |cs|);
    assert Head(cs, runs, tab, |cs|) + [] == Head(cs, runs, tab, |cs|);
  }

  /** The composed column of the end of the line lies the inner cells past its content. */
  lemma ComposedEnd(cs: seq<Cluster>, runs: seq<Run>, tab: nat)
    requires Sound(cs) && Sorted(runs) && tab >= 1
    ensures Composed(cs, runs, tab, CharStart(cs, |cs|)) == Widths(Content(cs, runs, tab)) + InnerCells(cs, runs)
  {
    CeilAt(cs, |cs|);
    InlineAtEnd(cs, runs);
    ContentWidth(cs, runs, tab);
  }

  lemma {:induction false} RunAtomsAreUnits(runs: seq<Run>, from: nat, at: nat)
    requires from <= |runs|
    ensures RunAtoms(runs, from, |runs|, at) == Units(TotalWidth(runs, from), at)
    decreases |runs| - from
  {
    if from < |runs| {
      RunAtomsAreUnits(runs, from + 1, at);
    }
  }
}
