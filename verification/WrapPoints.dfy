/** Where wrapping breaks a line, and which character each break is recorded at
    (ovim-core/src/wrap.rs). */
module WrapPoints {
  import opened Basics
  import opened Display
  import opened Wraps
  import opened ComposedColumns

  /** The last break before position `j`, where its row would begin. */
  function RowStart(breaks: seq<nat>, j: nat): (r: nat)
    ensures r <= j
  {
    if breaks == [] then 0
    else if breaks[|breaks| - 1] < j then breaks[|breaks| - 1]
    else RowStart(breaks[..|breaks| - 1], j)
  }

  /** Atom `j` does not fit behind what is in its row already. */
  predicate Overflows(atoms: seq<Atom>, width: nat, breaks: seq<nat>, j: nat) {
    j < |atoms| && Widths(atoms[RowStart(breaks, j)..j + 1]) > width
  }

  /** The first `n` atoms are in rows that begin at these breaks: an atom begins a row
      exactly when it does not fit behind those between the last break and it. */
  predicate Greedy(atoms: seq<Atom>, width: nat, breaks: seq<nat>, n: nat) {
    n <= |atoms| && Ascends(breaks, n) &&
    forall j :: 0 <= j < n ==> (j in breaks <==> Overflows(atoms, width, breaks, j))
  }

  predicate Ascends(breaks: seq<nat>, n: nat) {
    |breaks| <= n && (forall i :: 0 <= i < |breaks| ==> breaks[i] < n) &&
    (forall i, j :: 0 <= i < j < |breaks| ==> breaks[i] < breaks[j])
  }

  /** Each row starts at the display column of the atom that begins it, and each break is
      recorded at that atom's character. */
  predicate Recorded(s: Laid, atoms: seq<Atom>, breaks: seq<nat>) {
    |s.points| == |breaks| && |s.starts| == |breaks| + 1 && s.starts[0] == 0 &&
    forall i :: 0 <= i < |breaks| ==> RecordedAt(s, atoms, i, breaks[i])
  }

  predicate RecordedAt(s: Laid, atoms: seq<Atom>, i: nat, b: nat) {
    i < |s.points| && i + 1 < |s.starts| && b < |atoms| &&
    s.points[i] == atoms[b].at && s.starts[i + 1] == Widths(atoms[..b])
  }

  lemma WidthsNext(atoms: seq<Atom>, from: nat, n: nat)
    requires from <= n < |atoms|
    ensures Widths(atoms[from..n + 1]) == Widths(atoms[from..n]) + atoms[n].width
  {
    assert atoms[from..n + 1] == atoms[from..n] + [atoms[n]];
    WidthsConcat(atoms[from..n], [atoms[n]]);
    assert [atoms[n]][1..] == [];
  }

  /** The layout of the first `n` atoms, in the row that begins at `from`. */
  predicate Filled(s: Laid, atoms: seq<Atom>, breaks: seq<nat>, n: nat) {
    n <= |atoms| && s.col == Widths(atoms[RowStart(breaks, n)..n]) && s.flat == Widths(atoms[..n])
  }

  lemma FilledNext(s: Laid, atoms: seq<Atom>, width: nat, breaks: seq<nat>, n: nat)
    requires n < |atoms| && Filled(s, atoms, breaks, n)
    requires forall i :: 0 <= i < |breaks| ==> breaks[i] < n
    ensures Overflows(atoms, width, breaks, n) <==> s.col + atoms[n].width > width
    ensures Filled(Step(s, atoms[n], width), atoms,
                   if Overflows(atoms, width, breaks, n) then breaks + [n] else breaks, n + 1)
  {
    WidthsNext(atoms, RowStart(breaks, n), n);
    WidthsNext(atoms, 0, n);
    assert atoms[0..n] == atoms[..n] && atoms[0..n + 1] == atoms[..n + 1];
    WidthsNext(atoms, n, n);
    if breaks != [] {
      assert RowStart(breaks, n) == breaks[|breaks| - 1] == RowStart(breaks, n + 1);
    }
  }

  lemma StartsKept(breaks: seq<nat>, n: nat, j: nat)
    requires j <= n
    ensures RowStart(breaks + [n], j) == RowStart(breaks, j)
  {
    assert (breaks + [n])[..|breaks|] == breaks;
  }

  lemma GreedyNext(atoms: seq<Atom>, width: nat, breaks: seq<nat>, n: nat)
    requires Greedy(atoms, width, breaks, n) && n < |atoms|
    ensures Greedy(atoms, width, if Overflows(atoms, width, breaks, n) then breaks + [n] else breaks, n + 1)
  {
    if Overflows(atoms, width, breaks, n) {
      forall j | 0 <= j < n + 1
        ensures j in breaks + [n] <==> Overflows(atoms, width, breaks + [n], j)
      {
        StartsKept(breaks, n, j);
      }
    }
  }

  lemma RecordedNext(s: Laid, atoms: seq<Atom>, width: nat, breaks: seq<nat>, n: nat)
    requires n < |atoms| && Recorded(s, atoms, breaks) && s.flat == Widths(atoms[..n])
    ensures Recorded(Step(s, atoms[n], width), atoms,
                     if s.col + atoms[n].width > width then breaks + [n] else breaks)
  {
    var t := Step(s, atoms[n], width);
    if s.col + atoms[n].width > width {
      forall i | 0 <= i < |breaks| + 1 ensures RecordedAt(t, atoms, i, (breaks + [n])[i]) {
        assert i < |breaks| ==> RecordedAt(s, atoms, i, breaks[i]);
      }
    }
  }

  /** The layout `s` of the first `n` atoms breaks them greedily at `breaks`. */
  predicate Placed(s: Laid, atoms: seq<Atom>, width: nat, breaks: seq<nat>, n: nat) {
    Greedy(atoms, width, breaks, n) && Recorded(s, atoms, breaks) && Filled(s, atoms, breaks, n)
  }

  lemma PlacedNext(s: Laid, atoms: seq<Atom>, width: nat, before: seq<nat>, n: nat) returns (breaks: seq<nat>)
    requires n < |atoms| && Placed(s, atoms, width, before, n)
    ensures Placed(Step(s, atoms[n], width), atoms, width, breaks, n + 1)
  {
    FilledNext(s, atoms, width, before, n);
    GreedyNext(atoms, width, before, n);
    RecordedNext(s, atoms, width, before, n);
    breaks := if Overflows(atoms, width, before, n) then before + [n] else before;
  }

  lemma LayNext(atoms: seq<Atom>, width: nat, n: nat)
    requires n < |atoms|
    ensures Lay(TOP, atoms[..n + 1], width) == Step(Lay(TOP, atoms[..n], width), atoms[n], width)
  {
    assert atoms[..n + 1] == atoms[..n] + [atoms[n]];
    LayConcat(TOP, atoms[..n], [atoms[n]], width);
    assert [atoms[n]][1..] == [];
  }

  lemma {:induction false} BreaksOf(atoms: seq<Atom>, width: nat, n: nat) returns (breaks: seq<nat>)
    requires n <= |atoms|
    ensures Placed(Lay(TOP, atoms[..n], width), atoms, width, breaks, n)
  {
    if n == 0 {
      breaks := [];
    } else {
      var before := BreaksOf(atoms, width, n - 1);
      LayNext(atoms, width, n - 1);
      breaks := PlacedNext(Lay(TOP, atoms[..n - 1], width), atoms, width, before, n - 1);
    }
  }

  lemma LastOut(breaks: seq<nat>, n: nat)
    requires Ascends(breaks, n) && n > 0
    ensures n - 1 in breaks ==> breaks != [] && breaks[|breaks| - 1] == n - 1 && Ascends(breaks[..|breaks| - 1], n - 1)
    ensures n - 1 !in breaks ==> Ascends(breaks, n - 1)
  {
    if n - 1 in breaks {
      var i :| 0 <= i < |breaks| && breaks[i] == n - 1;
      assert breaks[i] <= breaks[|breaks| - 1];
    } else {
      forall i | 0 <= i < |breaks| ensures breaks[i] < n - 1 {
        assert breaks[i] in breaks;
      }
      if breaks != [] {
        AscendsAtMost(breaks, n - 1);
      }
    }
  }

  lemma {:induction false} AscendsAtMost(breaks: seq<nat>, n: nat)
    requires forall i :: 0 <= i < |breaks| ==> breaks[i] < n
    requires forall i, j :: 0 <= i < j < |breaks| ==> breaks[i] < breaks[j]
    ensures |breaks| <= n
  {
    if breaks != [] {
      AscendsAtMost(breaks[..|breaks| - 1], breaks[|breaks| - 1]);
    }
  }

  /** The breaks among the atoms before the last one. */
  function Init(breaks: seq<nat>, n: nat): seq<nat> {
    if breaks != [] && n > 0 && n - 1 in breaks then breaks[..|breaks| - 1] else breaks
  }

  lemma InitSame(breaks: seq<nat>, n: nat, j: nat)
    requires Ascends(breaks, n) && j < n
    ensures RowStart(Init(breaks, n), j) == RowStart(breaks, j)
    ensures j < n - 1 ==> (j in Init(breaks, n) <==> j in breaks)
  {
    LastOut(breaks, n);
    if n - 1 in breaks {
      assert breaks == Init(breaks, n) + [n - 1];
      StartsKept(Init(breaks, n), n - 1, j);
    }
  }

  lemma InitGreedy(atoms: seq<Atom>, width: nat, breaks: seq<nat>, n: nat)
    requires Greedy(atoms, width, breaks, n) && n > 0
    ensures Greedy(atoms, width, Init(breaks, n), n - 1)
    ensures breaks == if Overflows(atoms, width, Init(breaks, n), n - 1) then Init(breaks, n) + [n - 1]
                      else Init(breaks, n)
  {
    LastOut(breaks, n);
    forall j: nat | j < n
      ensures RowStart(Init(breaks, n), j) == RowStart(breaks, j)
      ensures j < n - 1 ==> (j in Init(breaks, n) <==> j in breaks)
    {
      InitSame(breaks, n, j);
    }
  }

  /** There is only one way to break a line greedily. */
  lemma {:induction false} BreaksAreUnique(atoms: seq<Atom>, width: nat, a: seq<nat>, b: seq<nat>, n: nat)
    requires Greedy(atoms, width, a, n) && Greedy(atoms, width, b, n)
    ensures a == b
    decreases n
  {
    if n > 0 {
      InitGreedy(atoms, width, a, n);
      InitGreedy(atoms, width, b, n);
      BreaksAreUnique(atoms, width, Init(a, n), Init(b, n), n - 1);
    }
  }

  // ----- which character a break is recorded at -------------------------------------------

  predicate AllAt(atoms: seq<Atom>, at: nat) {
    forall k :: 0 <= k < |atoms| ==> atoms[k].at == at
  }

  lemma {:induction false} RunAtomsAt(runs: seq<Run>, from: nat, to: nat, at: nat)
    requires from <= to <= |runs|
    ensures AllAt(RunAtoms(runs, from, to, at), at)
    decreases |runs| - from
  {
    if from < to {
      RunAtomsAt(runs, from + 1, to, at);
    }
  }

  lemma ClusterAtomsAt(cs: seq<Cluster>, k: nat, tab: nat)
    requires k < |cs| && tab >= 1
    ensures AllAt(ClusterAtoms(cs, k, tab), CharStart(cs, k))
  {
  }

  lemma BehindIsAt(a: seq<Atom>, b: seq<Atom>, c: seq<Atom>, rest: seq<Atom>, at: nat, i: nat)
    requires AllAt(b, at) && AllAt(c, at) && |a| <= i < |a| + |b| + |c|
    ensures (((a + b) + c) + rest)[i].at == at
  {
  }

  function All(cs: seq<Cluster>, runs: seq<Run>, tab: nat): seq<Atom>
    requires tab >= 1
  {
    Content(cs, runs, tab) + Trailing(cs, runs)
  }

  /** The atoms of cluster `k` and of the decorations in front of it; for the end of the
      line, those of the decorations behind it. */
  predicate BelongsTo(cs: seq<Cluster>, runs: seq<Run>, tab: nat, b: nat, k: nat) {
    k <= |cs| && tab >= 1 && |Head(cs, runs, tab, k)| <= b &&
    (k < |cs| ==> b < |Head(cs, runs, tab, k + 1)|)
  }

  lemma AtomBeforeEnd(cs: seq<Cluster>, runs: seq<Run>, tab: nat, b: nat, k: nat)
    requires k < |cs| && tab >= 1 && |Head(cs, runs, tab, k)| <= b < |Head(cs, runs, tab, k + 1)|
    ensures b < |All(cs, runs, tab)| && All(cs, runs, tab)[b].at == CharStart(cs, k)
  {
    var due := RunAtoms(runs, UsedBefore(cs, runs, k), UsedBefore(cs, runs, k + 1), CharStart(cs, k));
    var rest := ContentFrom(cs, runs, tab, k + 1, UsedBefore(cs, runs, k + 1));
    CutContent(cs, runs, tab, k + 1);
    RunAtomsAt(runs, UsedBefore(cs, runs, k), UsedBefore(cs, runs, k + 1), CharStart(cs, k));
    ClusterAtomsAt(cs, k, tab);
    BehindIsAt(Head(cs, runs, tab, k), due, ClusterAtoms(cs, k, tab), rest + Trailing(cs, runs), CharStart(cs, k), b);
    Associate(Head(cs, runs, tab, k + 1), rest, Trailing(cs, runs));
  }

  lemma AtomBehindEnd(cs: seq<Cluster>, runs: seq<Run>, tab: nat, b: nat)
    requires tab >= 1 && |Head(cs, runs, tab, |cs|)| <= b < |All(cs, runs, tab)|
    ensures All(cs, runs, tab)[b].at == CharStart(cs, |cs|)
  {
    CutContent(cs, runs, tab, |cs|);
    RunAtomsAt(runs, UsedFrom(cs, runs, 0, 0), |runs|, CharStart(cs, |cs|));
    assert All(cs, runs, tab)[b] == Trailing(cs, runs)[b - |Content(cs, runs, tab)|];
  }

  lemma AtomOfCluster(cs: seq<Cluster>, runs: seq<Run>, tab: nat, b: nat, k: nat)
    requires BelongsTo(cs, runs, tab, b, k) && b < |All(cs, runs, tab)|
    ensures All(cs, runs, tab)[b].at == CharStart(cs, k)
  {
    if k < |cs| {
      AtomBeforeEnd(cs, runs, tab, b, k);
    } else {
      AtomBehindEnd(cs, runs, tab, b);
    }
  }

  /** Every wrap point is the first character of the cluster that begins the new row, or
      that follows the decoration which begins it; the end of the line for decorations
      behind it. Rows begin exactly where something does not fit. */
  lemma WrapPointsExactly(cs: seq<Cluster>, runs: seq<Run>, tab: nat, width: nat) returns (breaks: seq<nat>)
    requires tab >= 1
    ensures Greedy(All(cs, runs, tab), width, breaks, |All(cs, runs, tab)|)
    ensures Recorded(LineLayout(cs, runs, tab, width), All(cs, runs, tab), breaks)
    ensures forall i, k: nat :: 0 <= i < |breaks| && BelongsTo(cs, runs, tab, breaks[i], k) ==>
              LineLayout(cs, runs, tab, width).points[i] == CharStart(cs, k)
  {
    var atoms := All(cs, runs, tab);
    breaks := BreaksOf(atoms, width, |atoms|);
    assert atoms[..|atoms|] == atoms;
    forall i, k: nat | 0 <= i < |breaks| && BelongsTo(cs, runs, tab, breaks[i], k)
      ensures LineLayout(cs, runs, tab, width).points[i] == CharStart(cs, k)
    {
      assert RecordedAt(LineLayout(cs, runs, tab, width), atoms, i, breaks[i]);
      AtomOfCluster(cs, runs, tab, breaks[i], k);
    }
  }
}
