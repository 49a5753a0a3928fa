/** What creating folds, recomputing automatic ones and following line-count
    changes do to the list of folds (ovim-core/src/fold.rs). */
module FoldUpdates {
  import opened Basics
  import opened Folds
  import opened FoldOrder
  import opened FoldLevels

  lemma {:induction false} FilterKeepsSorted(folds: seq<Fold>, keep: Fold -> bool)
    requires Sorted(folds)
    ensures Sorted(Filter(folds, keep))
  {
    if folds != [] {
      var init, last := folds[..|folds| - 1], folds[|folds| - 1];
      FilterKeepsSorted(init, keep);
      var rest := Filter(init, keep);
      forall i | 0 <= i < |rest| ensures Before(rest[i], last) {
        assert rest[i] in init;
        var j :| 0 <= j < |init| && init[j] == rest[i];
        assert Before(folds[j], folds[|folds| - 1]);
      }
    }
  }

  /** Without a fold and all that it encloses. */
  function WithoutEnclosed(folds: seq<Fold>, outer: Fold): (r: seq<Fold>)
    ensures forall f :: f in r <==> f in folds && !outer.Encloses(f)
  {
    Filter(folds, (f: Fold) => !outer.Encloses(f))
  }

  lemma WithoutEnclosedKeepsSorted(folds: seq<Fold>, outer: Fold)
    requires Sorted(folds)
    ensures Sorted(WithoutEnclosed(folds, outer))
  {
    FilterKeepsSorted(folds, (f: Fold) => !outer.Encloses(f));
  }

  lemma SubsetKeepsShape(folds: seq<Fold>, sub: seq<Fold>)
    requires forall f :: f in sub ==> f in folds
    ensures NonTrivial(folds) ==> NonTrivial(sub)
    ensures Laminar(folds) ==> Laminar(sub)
  {
    if NonTrivial(folds) {
      forall i | 0 <= i < |sub| ensures sub[i].start < sub[i].end {
        assert sub[i] in folds;
      }
    }
    LaminarBySet(folds);
    LaminarBySet(sub);
  }

  /** Same lines; open flags and origins may differ. */
  predicate SameRanges(a: seq<Fold>, b: seq<Fold>) {
    |a| == |b| && forall i :: 0 <= i < |a| ==> a[i].start == b[i].start && a[i].end == b[i].end
  }

  lemma SameRangesSameShape(a: seq<Fold>, b: seq<Fold>)
    requires SameRanges(a, b)
    ensures WellFormed(a) ==> WellFormed(b)
    ensures Laminar(a) ==> Laminar(b)
  {
    if Laminar(a) {
      forall i, j | 0 <= i < j < |b| ensures !b[i].Crosses(b[j]) {
        assert !a[i].Crosses(a[j]);
      }
    }
    if WellFormed(a) {
      forall i, j | 0 <= i < j < |b| ensures Before(b[i], b[j]) {
        assert Before(a[i], a[j]);
      }
    }
  }

  // ----- create_fold -------------------------------------------------------------

  function Created(folds: seq<Fold>, start: nat, end: nat): seq<Fold> {
    if start >= end then folds
    else
      var fold := Fold(start, end, false, Manual);
      var others := Filter(folds, (f: Fold) => !(f.start == start && f.end == end));
      var fitting := Filter(others, (f: Fold) => !f.Overlaps(fold) || f.Encloses(fold) || fold.Encloses(f));
      SortFolds(fitting + [fold])
  }

  /** A new fold replaces its equal and displaces exactly what it crosses. */
  lemma CreatedMembers(folds: seq<Fold>, start: nat, end: nat)
    requires start < end
    ensures forall g :: g in Created(folds, start, end) <==>
              g == Fold(start, end, false, Manual) ||
              (g in folds && !(g.start == start && g.end == end) && !g.Crosses(Fold(start, end, false, Manual)))
  {
  }

  lemma CreatedKeepsShape(folds: seq<Fold>, start: nat, end: nat)
    requires WellFormed(folds)
    ensures WellFormed(Created(folds, start, end))
    ensures Laminar(folds) ==> Laminar(Created(folds, start, end))
  {
    if start < end {
      CreatedMembers(folds, start, end);
      JoinedByUncrossed(folds, Created(folds, start, end), Fold(start, end, false, Manual));
    }
  }

  lemma JoinedByUncrossed(folds: seq<Fold>, r: seq<Fold>, fold: Fold)
    requires NonTrivial(folds) && fold.start < fold.end
    requires forall g :: g in r ==> g == fold || (g in folds && !g.Crosses(fold))
    ensures NonTrivial(r) && (Laminar(folds) ==> Laminar(r))
  {
    forall i | 0 <= i < |r| ensures r[i].start < r[i].end {
      assert r[i] in r;
    }
    LaminarBySet(folds);
    LaminarBySet(r);
  }

  // ----- automatic folds -----------------------------------------------------------

  function ByRange(auto: seq<Fold>): map<Range, bool> {
    if auto == [] then map[]
    else
      var last := auto[|auto| - 1];
      ByRange(auto[..|auto| - 1])[Range(last.start, last.end) := last.open]
  }

  function ByStart(auto: seq<Fold>): map<nat, bool> {
    if auto == [] then map[]
    else
      var rest, last := ByStart(auto[..|auto| - 1]), auto[|auto| - 1];
      if last.start in rest then rest else rest[last.start := last.open]
  }

  /** The previous state of a range: its own, or that of its header line. */
  function Remembered(auto: seq<Fold>, c: Fold): Option<bool> {
    if Range(c.start, c.end) in ByRange(auto) then Some(ByRange(auto)[Range(c.start, c.end)])
    else if c.start in ByStart(auto) then Some(ByStart(auto)[c.start])
    else None
  }

  function WithState(auto: seq<Fold>, c: Fold): Fold {
    var state := Remembered(auto, c);
    c.(open := state.None? || state.value)
  }

  function AllWithState(auto: seq<Fold>, accepted: seq<Fold>): (r: seq<Fold>)
    ensures |r| == |accepted|
    ensures forall i :: 0 <= i < |r| ==> r[i] == WithState(auto, accepted[i])
  {
    seq(|accepted|, i requires 0 <= i < |accepted| => WithState(auto, accepted[i]))
  }

  function FreshStarts(auto: seq<Fold>, accepted: seq<Fold>): set<nat> {
    set i | 0 <= i < |accepted| && Remembered(auto, accepted[i]).None? :: accepted[i].start
  }

  function InBuffer(ranges: seq<Range>, lineCount: nat): seq<Fold> {
    if ranges == [] then []
    else
      var rest, r := InBuffer(ranges[..|ranges| - 1], lineCount), ranges[|ranges| - 1];
      if r.lo < r.hi < lineCount then rest + [Fold(r.lo, r.hi, true, Auto)] else rest
  }

  function Dedup(s: seq<Fold>): seq<Fold> {
    if |s| <= 1 then s
    else
      var rest := Dedup(s[..|s| - 1]);
      if s[|s| - 1] == s[|s| - 2] then rest else rest + [s[|s| - 1]]
  }

  function Incoming(ranges: seq<Range>, lineCount: nat): seq<Fold> {
    Dedup(SortFolds(InBuffer(ranges, lineCount)))
  }

  lemma {:induction false} InBufferIsPlain(ranges: seq<Range>, lineCount: nat)
    ensures forall f :: f in InBuffer(ranges, lineCount) <==>
              f.open && f.origin == Auto && f.start < f.end < lineCount && Range(f.start, f.end) in ranges
  {
    if ranges != [] {
      InBufferIsPlain(ranges[..|ranges| - 1], lineCount);
      assert ranges == ranges[..|ranges| - 1] + [ranges[|ranges| - 1]];
    }
  }

  lemma {:induction false} DedupMembers(s: seq<Fold>)
    ensures forall f :: f in Dedup(s) <==> f in s
    ensures s != [] ==> Dedup(s) != [] && Dedup(s)[|Dedup(s)| - 1] == s[|s| - 1]
  {
    if |s| > 1 {
      var init := s[..|s| - 1];
      assert s == init + [s[|s| - 1]];
      DedupMembers(init);
    }
  }

  lemma {:induction false} DedupOfSorted(s: seq<Fold>)
    requires Sorted(s) && forall i :: 0 <= i < |s| ==> s[i].open && s[i].origin == Auto && s[i].start < s[i].end
    ensures Candidates(Dedup(s))
  {
    if |s| > 1 {
      var init, last := s[..|s| - 1], s[|s| - 1];
      DedupOfSorted(init);
      DedupMembers(init);
      var rest := Dedup(init);
      if last != s[|s| - 2] {
        assert Before(s[|s| - 2], last);
        assert rest[|rest| - 1] == s[|s| - 2];
        AppendCandidate(rest, last);
      }
    }
  }

  lemma AppendCandidate(s: seq<Fold>, c: Fold)
    requires Candidates(s) && c.start < c.end
    requires s != [] ==>
               s[|s| - 1].start < c.start || (s[|s| - 1].start == c.start && s[|s| - 1].end > c.end)
    ensures Candidates(s + [c])
  {
  }

  lemma IncomingAreCandidates(ranges: seq<Range>, lineCount: nat)
    ensures Candidates(Incoming(ranges, lineCount))
    ensures forall f :: f in Incoming(ranges, lineCount) <==>
              f.open && f.origin == Auto && f.start < f.end < lineCount && Range(f.start, f.end) in ranges
  {
    InBufferIsPlain(ranges, lineCount);
    var s := SortFolds(InBuffer(ranges, lineCount));
    forall i | 0 <= i < |s| ensures s[i].open && s[i].origin == Auto && s[i].start < s[i].end {
      assert s[i] in s;
    }
    DedupMembers(s);
    DedupOfSorted(s);
  }

  /** New automatic folds that nobody has touched follow `foldlevel`. */
  function FreshLeveled(folds: seq<Fold>, starts: set<nat>, level: nat): (r: seq<Fold>)
    ensures |r| == |folds|
    ensures forall i :: 0 <= i < |r| ==>
              r[i] == if folds[i].origin == Auto && folds[i].start in starts
                      then folds[i].(open := Level(folds, i) <= level) else folds[i]
  {
    seq(|folds|, i requires 0 <= i < |folds| =>
      if folds[i].origin == Auto && folds[i].start in starts
      then folds[i].(open := Level(folds, i) <= level) else folds[i])
  }

  function Manuals(folds: seq<Fold>): (r: seq<Fold>)
    ensures forall f :: f in r <==> f in folds && f.origin == Manual
  {
    Filter(folds, (f: Fold) => f.origin == Manual)
  }

  function Automatic(folds: seq<Fold>): (r: seq<Fold>)
    ensures forall f :: f in r <==> f in folds && f.origin == Auto
  {
    Filter(folds, (f: Fold) => f.origin != Manual)
  }

  function AutoResult(folds: seq<Fold>, ranges: seq<Range>, lineCount: nat, foldlevel: Option<nat>): seq<Fold> {
    var manual, auto := Manuals(folds), Automatic(folds);
    var accepted := Greedy(Incoming(ranges, lineCount), manual);
    var sorted := SortFolds(manual + AllWithState(auto, accepted));
    if foldlevel.None? then sorted else FreshLeveled(sorted, FreshStarts(auto, accepted), foldlevel.value)
  }

  lemma AutoResultKeepsShape(folds: seq<Fold>, ranges: seq<Range>, lineCount: nat, foldlevel: Option<nat>)
    requires WellFormed(folds)
    ensures WellFormed(AutoResult(folds, ranges, lineCount, foldlevel))
    ensures Laminar(folds) ==> Laminar(AutoResult(folds, ranges, lineCount, foldlevel))
  {
    var manual, auto := Manuals(folds), Automatic(folds);
    var accepted := Greedy(Incoming(ranges, lineCount), manual);
    SubsetKeepsShape(folds, manual);
    JoinedShape(manual, auto, Incoming(ranges, lineCount), ranges, lineCount);
    var sorted := SortFolds(manual + AllWithState(auto, accepted));
    if foldlevel.Some? {
      SameRangesSameShape(sorted, FreshLeveled(sorted, FreshStarts(auto, accepted), foldlevel.value));
    }
  }

  predicate NoneTrivial(s: seq<Fold>) {
    forall f :: f in s ==> f.start < f.end
  }

  lemma SortedWellFormed(s: seq<Fold>, r: seq<Fold>)
    requires r == SortFolds(s) && NoneTrivial(s)
    ensures WellFormed(r)
  {
    AllNonTrivial(r);
  }

  lemma AllNonTrivial(s: seq<Fold>)
    requires forall f :: f in s ==> f.start < f.end
    ensures NonTrivial(s)
  {
    forall i | 0 <= i < |s| ensures s[i].start < s[i].end {
      assert s[i] in s;
    }
  }

  lemma JoinedNonTrivial(manual: seq<Fold>, auto: seq<Fold>, incoming: seq<Fold>, ranges: seq<Range>, lineCount: nat)
    requires incoming == Incoming(ranges, lineCount) && NonTrivial(manual)
    ensures NoneTrivial(manual + AllWithState(auto, Greedy(incoming, manual)))
  {
    var accepted := Greedy(incoming, manual);
    var stated := AllWithState(auto, accepted);
    GreedyComesFrom(incoming, manual);
    IncomingAreCandidates(ranges, lineCount);
    forall f | f in manual + stated ensures f.start < f.end {
      if f !in manual {
        var k :| 0 <= k < |stated| && stated[k] == f;
        assert accepted[k] in accepted;
      }
    }
  }

  lemma JoinedShape(manual: seq<Fold>, auto: seq<Fold>, incoming: seq<Fold>, ranges: seq<Range>, lineCount: nat)
    requires incoming == Incoming(ranges, lineCount) && NonTrivial(manual)
    ensures var sorted := SortFolds(manual + AllWithState(auto, Greedy(incoming, manual)));
            WellFormed(sorted) && (Laminar(manual) ==> Laminar(sorted))
  {
    var accepted := Greedy(incoming, manual);
    var stated := AllWithState(auto, accepted);
    var sorted := SortFolds(manual + stated);
    JoinedNonTrivial(manual, auto, incoming, ranges, lineCount);
    SortedWellFormed(manual + stated, sorted);
    if Laminar(manual) {
      IncomingAreCandidates(ranges, lineCount);
      AcceptedJoinManual(incoming, manual);
      LaminarBySet(manual + accepted);
      SameRangesSameShape(manual + accepted, manual + stated);
      LaminarBySet(manual + stated);
      LaminarBySet(sorted);
    }
  }

  // ----- adjust_for_line_count --------------------------------------------------------

  function Shifted(line: nat, delta: int): nat {
    if line + delta >= 0 then line + delta else 0
  }

  function AdjustedFold(f: Fold, delta: int, pivot: nat): Fold {
    if f.start > pivot then f.(start := Shifted(f.start, delta), end := Shifted(f.end, delta))
    else if f.end >= pivot then f.(end := Max(Shifted(f.end, delta), f.start))
    else f
  }

  function Cut(f: Fold, maxLine: nat): Fold {
    f.(end := Min(f.end, maxLine))
  }

  predicate AdjustedFrom(g: Fold, folds: seq<Fold>, delta: int, pivot: nat, maxLine: nat) {
    exists i :: 0 <= i < |folds| && g == Cut(AdjustedFold(folds[i], delta, pivot), maxLine)
  }

  /** Every fold adjusted and cut at the last line; what becomes empty is gone. */
  function AdjustedAll(folds: seq<Fold>, delta: int, pivot: nat, maxLine: nat): seq<Fold> {
    if folds == [] then []
    else
      var rest := AdjustedAll(folds[..|folds| - 1], delta, pivot, maxLine);
      var f := Cut(AdjustedFold(folds[|folds| - 1], delta, pivot), maxLine);
      if f.start < f.end then rest + [f] else rest
  }

  lemma {:induction false} AdjustedMembers(folds: seq<Fold>, delta: int, pivot: nat, maxLine: nat)
    ensures forall g :: g in AdjustedAll(folds, delta, pivot, maxLine) <==>
              g.start < g.end && AdjustedFrom(g, folds, delta, pivot, maxLine)
  {
    if folds != [] {
      var init, last := folds[..|folds| - 1], folds[|folds| - 1];
      AdjustedMembers(init, delta, pivot, maxLine);
      forall g ensures AdjustedFrom(g, folds, delta, pivot, maxLine) <==>
                       AdjustedFrom(g, init, delta, pivot, maxLine) ||
                       g == Cut(AdjustedFold(last, delta, pivot), maxLine)
      {
        if AdjustedFrom(g, init, delta, pivot, maxLine) {
          var i :| 0 <= i < |init| && g == Cut(AdjustedFold(init[i], delta, pivot), maxLine);
          assert folds[i] == init[i];
        }
        if AdjustedFrom(g, folds, delta, pivot, maxLine) {
          var i :| 0 <= i < |folds| && g == Cut(AdjustedFold(folds[i], delta, pivot), maxLine);
          assert i < |init| ==> init[i] == folds[i];
        }
      }
    }
  }

  function Adjusted(folds: seq<Fold>, oldCount: nat, newCount: nat, pivot: nat): seq<Fold> {
    if oldCount == 0 || oldCount == newCount || folds == [] then folds
    else SortFolds(AdjustedAll(folds, newCount - oldCount, pivot, LastLine(newCount)))
  }

  lemma {:induction false} AdjustedKeepsOrder(folds: seq<Fold>, oldCount: nat, newCount: nat, pivot: nat)
    requires WellFormed(folds)
    ensures WellFormed(Adjusted(folds, oldCount, newCount, pivot))
  {
    var s := AdjustedAll(folds, newCount - oldCount, pivot, LastLine(newCount));
    AdjustedAllNonTrivial(folds, newCount - oldCount, pivot, LastLine(newCount));
    EitherWellFormed(folds, s, Adjusted(folds, oldCount, newCount, pivot));
  }

  lemma EitherWellFormed(folds: seq<Fold>, s: seq<Fold>, r: seq<Fold>)
    requires WellFormed(folds) && NoneTrivial(s) && (r == folds || r == SortFolds(s))
    ensures WellFormed(r)
  {
    if r == SortFolds(s) {
      SortedWellFormed(s, r);
    }
  }

  lemma AdjustedAllNonTrivial(folds: seq<Fold>, delta: int, pivot: nat, maxLine: nat)
    ensures NoneTrivial(AdjustedAll(folds, delta, pivot, maxLine))
  {
    AdjustedMembers(folds, delta, pivot, maxLine);
  }

  /** No boundary of a fold lies among the lines that were removed below `pivot`. */
  predicate KeepsBoundaries(f: Fold, delta: int, pivot: nat) {
    delta < 0 ==>
      (f.start <= pivot || f.start + delta > pivot) && (f.end < pivot || f.end + delta >= pivot)
  }

  /** A removal makes `f` and a later fold `g` cross: `g` moves above the start of `f`,
      or up into an `f` that stays, or `f` is cut short inside `g`. */
  predicate Collide(f: Fold, g: Fold, delta: int, pivot: nat, maxLine: nat) {
    var ef, eg := Cut(AdjustedFold(f, delta, pivot), maxLine).end, Cut(AdjustedFold(g, delta, pivot), maxLine).end;
    var sg := Shifted(g.start, delta);
    delta < 0 && f.start <= pivot && f.start < ef &&
    ((g.start > pivot && sg < f.start <= eg < ef) ||
     (g.start > pivot && f.end < pivot && f.start < sg <= ef < eg) ||
     (g.end < pivot <= f.end && f.start < g.start <= ef < eg))
  }

  predicate NoneCollide(folds: seq<Fold>, delta: int, pivot: nat, maxLine: nat) {
    forall i, j :: 0 <= i < j < |folds| ==> !Collide(folds[i], folds[j], delta, pivot, maxLine)
  }

  /** Two uncrossed folds that both remain cross afterwards exactly if they collide. */
  lemma CollideExactly(f: Fold, g: Fold, delta: int, pivot: nat, maxLine: nat)
    requires Before(f, g) && !f.Crosses(g) && f.start < f.end && g.start < g.end
    ensures var a, b := Cut(AdjustedFold(f, delta, pivot), maxLine), Cut(AdjustedFold(g, delta, pivot), maxLine);
            a.start < a.end && b.start < b.end && a.Crosses(b) <==> Collide(f, g, delta, pivot, maxLine)
  {
  }

  /** Folds with no boundary among the removed lines never collide. */
  lemma KeptBoundariesNeverCollide(f: Fold, g: Fold, delta: int, pivot: nat, maxLine: nat)
    requires Before(f, g) && !f.Crosses(g) && f.start < f.end && g.start < g.end
    requires KeepsBoundaries(f, delta, pivot) && KeepsBoundaries(g, delta, pivot)
    ensures !Collide(f, g, delta, pivot, maxLine)
  {
  }

  function LastLine(lineCount: nat): nat {
    if lineCount > 0 then lineCount - 1 else 0
  }

  /** Following a line-count change keeps nested folds nested if and only if no two of
      them collide. */
  lemma AdjustedKeepsLaminar(folds: seq<Fold>, oldCount: nat, newCount: nat, pivot: nat)
    requires WellFormed(folds) && Laminar(folds)
    ensures Laminar(Adjusted(folds, oldCount, newCount, pivot))
            <==> NoneCollide(folds, newCount - oldCount, pivot, LastLine(newCount))
  {
    if !(oldCount == 0 || oldCount == newCount || folds == []) {
      var delta, maxLine := newCount - oldCount, LastLine(newCount);
      if NoneCollide(folds, delta, pivot, maxLine) {
        AdjustedUncrossed(folds, delta, pivot, maxLine);
        LaminarBySet(SortFolds(AdjustedAll(folds, delta, pivot, maxLine)));
      } else {
        CollisionCrosses(folds, delta, pivot, maxLine);
      }
    }
  }

  lemma CollisionCrosses(folds: seq<Fold>, delta: int, pivot: nat, maxLine: nat)
    requires WellFormed(folds) && Laminar(folds) && !NoneCollide(folds, delta, pivot, maxLine)
    ensures !Laminar(SortFolds(AdjustedAll(folds, delta, pivot, maxLine)))
  {
    var i, j :| 0 <= i < j < |folds| && Collide(folds[i], folds[j], delta, pivot, maxLine);
    var a, b := Cut(AdjustedFold(folds[i], delta, pivot), maxLine), Cut(AdjustedFold(folds[j], delta, pivot), maxLine);
    CollideExactly(folds[i], folds[j], delta, pivot, maxLine);
    AdjustedMembers(folds, delta, pivot, maxLine);
    assert AdjustedFrom(a, folds, delta, pivot, maxLine) && AdjustedFrom(b, folds, delta, pivot, maxLine);
    CrossingPair(AdjustedAll(folds, delta, pivot, maxLine), a, b);
  }

  lemma AdjustedUncrossed(folds: seq<Fold>, delta: int, pivot: nat, maxLine: nat)
    requires WellFormed(folds) && Laminar(folds) && NoneCollide(folds, delta, pivot, maxLine)
    ensures forall f, g ::
              f in AdjustedAll(folds, delta, pivot, maxLine) && g in AdjustedAll(folds, delta, pivot, maxLine)
              ==> !f.Crosses(g)
  {
    var r := AdjustedAll(folds, delta, pivot, maxLine);
    AdjustedMembers(folds, delta, pivot, maxLine);
    forall f, g | f in r && g in r ensures !f.Crosses(g) {
      var i :| 0 <= i < |folds| && f == Cut(AdjustedFold(folds[i], delta, pivot), maxLine);
      var j :| 0 <= j < |folds| && g == Cut(AdjustedFold(folds[j], delta, pivot), maxLine);
      if i < j {
        CollideExactly(folds[i], folds[j], delta, pivot, maxLine);
      } else if j < i {
        CollideExactly(folds[j], folds[i], delta, pivot, maxLine);
      }
    }
  }

  lemma CrossingPair(s: seq<Fold>, a: Fold, b: Fold)
    requires a in s && b in s && a.Crosses(b)
    ensures !Laminar(SortFolds(s))
  {
    LaminarBySet(SortFolds(s));
  }

  const NESTED: seq<Fold> := [Fold(3, 20, true, Manual), Fold(7, 9, true, Manual)]
  const CROSSED: seq<Fold> := [Fold(3, 15, true, Manual), Fold(2, 4, true, Manual)]

  lemma RemovedFiveLines()
    ensures AdjustedAll(NESTED, -5, 6, 24) == CROSSED
  {
    var f, g := NESTED[0], NESTED[1];
    assert [f, g][..1] == [f] && [f][..0] == [];
    assert AdjustedAll([f], -5, 6, 24) == [CROSSED[0]];
  }

  lemma NestedIsLaminar()
    ensures WellFormed(NESTED) && Laminar(NESTED)
  {
  }

  /** Removing five lines below line 6 makes two nested folds cross. */
  lemma RemovalCanCross()
    ensures WellFormed(NESTED) && Laminar(NESTED) && !Laminar(Adjusted(NESTED, 30, 25, 6))
  {
    NestedIsLaminar();
    RemovedFiveLines();
    CrossingPair(CROSSED, CROSSED[0], CROSSED[1]);
  }
}
