/** Which folds a recompute of the automatic ones leaves, and which of them are
    open (ovim-core/src/fold.rs). */
module FoldStates {
  import opened Basics
  import opened Folds
  import opened FoldOrder
  import opened FoldLevels
  import opened FoldUpdates

  predicate SameRange(f: Fold, g: Fold) {
    f.start == g.start && f.end == g.end
  }

  /** The last automatic fold with the range of `c`. */
  predicate LastAlike(folds: seq<Fold>, c: Fold, i: nat) {
    i < |folds| && folds[i].origin == Auto && SameRange(folds[i], c) &&
    forall j :: i < j < |folds| && folds[j].origin == Auto ==> !SameRange(folds[j], c)
  }

  predicate SomeAlike(folds: seq<Fold>, c: Fold) {
    exists f :: f in folds && f.origin == Auto && SameRange(f, c)
  }

  /** The outermost automatic fold with header line `line`. */
  predicate OutermostAt(folds: seq<Fold>, line: nat, i: nat) {
    i < |folds| && folds[i].origin == Auto && folds[i].start == line &&
    forall j :: 0 <= j < |folds| && folds[j].origin == Auto && folds[j].start == line ==>
      folds[j].end <= folds[i].end && (j < i ==> folds[j].end < folds[i].end)
  }

  predicate SomeAt(folds: seq<Fold>, line: nat) {
    exists f :: f in folds && f.origin == Auto && f.start == line
  }

  lemma AutomaticLast(folds: seq<Fold>)
    requires folds != []
    ensures var init, last := folds[..|folds| - 1], folds[|folds| - 1];
            Automatic(folds) == if last.origin == Auto then Automatic(init) + [last] else Automatic(init)
  {
  }

  lemma SomeAlikeLast(folds: seq<Fold>, c: Fold)
    requires folds != []
    ensures SomeAlike(folds, c) <==>
              SomeAlike(folds[..|folds| - 1], c) ||
              (folds[|folds| - 1].origin == Auto && SameRange(folds[|folds| - 1], c))
  {
    assert folds == folds[..|folds| - 1] + [folds[|folds| - 1]];
  }

  lemma SomeAtLast(folds: seq<Fold>, line: nat)
    requires folds != []
    ensures SomeAt(folds, line) <==>
              SomeAt(folds[..|folds| - 1], line) ||
              (folds[|folds| - 1].origin == Auto && folds[|folds| - 1].start == line)
  {
    assert folds == folds[..|folds| - 1] + [folds[|folds| - 1]];
  }

  lemma {:induction false} ByRangeHas(folds: seq<Fold>, c: Fold)
    ensures Range(c.start, c.end) in ByRange(Automatic(folds)) <==> SomeAlike(folds, c)
  {
    if folds != [] {
      ByRangeHas(folds[..|folds| - 1], c);
      SomeAlikeLast(folds, c);
      AutomaticLast(folds);
      ByRangeNext(Automatic(folds[..|folds| - 1]), folds[|folds| - 1]);
    }
  }

  lemma LastAlikeInInit(folds: seq<Fold>, c: Fold, i: nat)
    requires LastAlike(folds, c, i) && i < |folds| - 1
    ensures LastAlike(folds[..|folds| - 1], c, i)
    ensures folds[|folds| - 1].origin == Auto ==> !SameRange(folds[|folds| - 1], c)
  {
  }

  /** The table by range holds the state of the last fold of that range. */
  lemma {:induction false} ByRangeIsLast(folds: seq<Fold>, c: Fold, i: nat)
    requires LastAlike(folds, c, i) && Range(c.start, c.end) in ByRange(Automatic(folds))
    ensures ByRange(Automatic(folds))[Range(c.start, c.end)] == folds[i].open
  {
    var init, last := folds[..|folds| - 1], folds[|folds| - 1];
    AutomaticLast(folds);
    ByRangeNext(Automatic(init), last);
    if i < |init| {
      LastAlikeInInit(folds, c, i);
      ByRangeIsLast(init, c, i);
    }
  }

  lemma ByRangeNext(auto: seq<Fold>, last: Fold)
    ensures ByRange(auto + [last]) == ByRange(auto)[Range(last.start, last.end) := last.open]
    ensures ByStart(auto + [last]) == if last.start in ByStart(auto) then ByStart(auto)
                                      else ByStart(auto)[last.start := last.open]
  {
    assert (auto + [last])[..|auto|] == auto;
  }

  lemma OutermostInInit(folds: seq<Fold>, line: nat, i: nat)
    requires Sorted(folds) && OutermostAt(folds, line, i)
    ensures i < |folds| - 1 ==> OutermostAt(folds[..|folds| - 1], line, i)
    ensures i == |folds| - 1 ==> !SomeAt(folds[..|folds| - 1], line)
  {
    var init := folds[..|folds| - 1];
    forall f | i == |folds| - 1 && f in init ensures f.origin == Manual || f.start != line {
      var j :| 0 <= j < |init| && init[j] == f;
      assert folds[j] == f && Before(folds[j], folds[i]);
    }
  }

  /** The table by header line holds the state of the outermost fold there. */
  lemma {:induction false} ByStartIsOutermost(folds: seq<Fold>, line: nat)
    requires Sorted(folds)
    ensures line in ByStart(Automatic(folds)) <==> SomeAt(folds, line)
    ensures forall i: nat :: OutermostAt(folds, line, i) ==>
              line in ByStart(Automatic(folds)) && ByStart(Automatic(folds))[line] == folds[i].open
  {
    if folds == [] {
      return;
    }
    var init, last := folds[..|folds| - 1], folds[|folds| - 1];
    ByStartIsOutermost(init, line);
    SomeAtLast(folds, line);
    AutomaticLast(folds);
    if last.origin == Auto {
      ByRangeNext(Automatic(init), last);
    }
    forall i: nat | OutermostAt(folds, line, i)
      ensures line in ByStart(Automatic(folds)) && ByStart(Automatic(folds))[line] == folds[i].open
    {
      OutermostInInit(folds, line, i);
    }
  }

  // ----- the state of one accepted range ------------------------------------------

  /** The state a range gets before `foldlevel` is looked at. */
  lemma StateRemembered(folds: seq<Fold>, c: Fold)
    requires Sorted(folds)
    ensures var f := WithState(Automatic(folds), c);
            f == c.(open := f.open) &&
            (forall i: nat :: LastAlike(folds, c, i) ==> f.open == folds[i].open) &&
            (forall i: nat :: OutermostAt(folds, c.start, i) && !SomeAlike(folds, c) ==> f.open == folds[i].open) &&
            (!SomeAt(folds, c.start) ==> f.open)
    ensures Remembered(Automatic(folds), c).None? <==> !SomeAt(folds, c.start)
  {
    ByRangeHas(folds, c);
    ByStartIsOutermost(folds, c.start);
    if SomeAlike(folds, c) {
      assert SomeAt(folds, c.start);
    }
    forall i: nat | LastAlike(folds, c, i)
      ensures SomeAlike(folds, c) && folds[i].open == ByRange(Automatic(folds))[Range(c.start, c.end)]
    {
      assert folds[i] in folds;
      ByRangeIsLast(folds, c, i);
    }
  }

  /** ... as an independent description of the fold `f` in the result. */
  predicate KeepsState(folds: seq<Fold>, f: Fold) {
    forall i :: 0 <= i < |folds| ==>
      (LastAlike(folds, f, i) ==> f.open == folds[i].open) &&
      (OutermostAt(folds, f.start, i) && !SomeAlike(folds, f) ==> f.open == folds[i].open)
  }

  lemma AlikeSame(folds: seq<Fold>, f: Fold, g: Fold)
    requires SameRange(f, g)
    ensures forall i: nat :: LastAlike(folds, f, i) <==> LastAlike(folds, g, i)
    ensures SomeAlike(folds, f) <==> SomeAlike(folds, g)
  {
    if SomeAlike(folds, f) {
      var h :| h in folds && h.origin == Auto && SameRange(h, f);
      assert SameRange(h, g);
    }
    if SomeAlike(folds, g) {
      var h :| h in folds && h.origin == Auto && SameRange(h, g);
      assert SameRange(h, f);
    }
  }

  lemma StatedKeepsState(folds: seq<Fold>, c: Fold)
    requires Sorted(folds)
    ensures KeepsState(folds, WithState(Automatic(folds), c))
    ensures !SomeAt(folds, c.start) ==> WithState(Automatic(folds), c).open
  {
    var f := WithState(Automatic(folds), c);
    StateRemembered(folds, c);
    AlikeSame(folds, f, c);
  }

  // ----- the result ----------------------------------------------------------------

  function Accepted(folds: seq<Fold>, ranges: seq<Range>, lineCount: nat): seq<Fold> {
    Greedy(Incoming(ranges, lineCount), Manuals(folds))
  }

  /** The result before `foldlevel` is looked at. */
  function Joined(folds: seq<Fold>, ranges: seq<Range>, lineCount: nat): seq<Fold> {
    SortFolds(Manuals(folds) + AllWithState(Automatic(folds), Accepted(folds, ranges, lineCount)))
  }

  lemma ResultIs(folds: seq<Fold>, ranges: seq<Range>, lineCount: nat, foldlevel: Option<nat>)
    ensures var starts := FreshStarts(Automatic(folds), Accepted(folds, ranges, lineCount));
            AutoResult(folds, ranges, lineCount, foldlevel)
            == if foldlevel.None? then Joined(folds, ranges, lineCount)
               else FreshLeveled(Joined(folds, ranges, lineCount), starts, foldlevel.value)
  {
  }

  /** A range that may become a fold. */
  predicate Proper(ranges: seq<Range>, lineCount: nat, f: Fold) {
    f.start < f.end < lineCount && Range(f.start, f.end) in ranges
  }

  /** `f` is an automatic fold with a remembered state, or open. */
  predicate Stated(folds: seq<Fold>, ranges: seq<Range>, lineCount: nat, f: Fold) {
    f.origin == Auto && Proper(ranges, lineCount, f) && !CrossesAny(Manuals(folds), f) && KeepsState(folds, f) &&
    (!SomeAt(folds, f.start) ==> f.open)
  }

  lemma AcceptedIsProper(folds: seq<Fold>, ranges: seq<Range>, lineCount: nat, c: Fold)
    requires c in Accepted(folds, ranges, lineCount)
    ensures c.origin == Auto && Proper(ranges, lineCount, c) && !CrossesAny(Manuals(folds), c)
  {
    GreedyComesFrom(Incoming(ranges, lineCount), Manuals(folds));
    IncomingAreCandidates(ranges, lineCount);
  }

  lemma CrossingIsByRange(folds: seq<Fold>, f: Fold, g: Fold)
    requires SameRange(f, g)
    ensures CrossesAny(folds, f) <==> CrossesAny(folds, g)
  {
    forall k | 0 <= k < |folds| ensures folds[k].Crosses(f) <==> folds[k].Crosses(g) {
    }
  }

  lemma AcceptedIsStated(folds: seq<Fold>, ranges: seq<Range>, lineCount: nat, c: Fold)
    requires Sorted(folds) && c in Accepted(folds, ranges, lineCount)
    ensures Stated(folds, ranges, lineCount, WithState(Automatic(folds), c))
  {
    AcceptedIsProper(folds, ranges, lineCount, c);
    StatedKeepsState(folds, c);
    CrossingIsByRange(Manuals(folds), c, WithState(Automatic(folds), c));
  }

  lemma JoinedMembers(folds: seq<Fold>, ranges: seq<Range>, lineCount: nat, f: Fold)
    requires Sorted(folds) && f in Joined(folds, ranges, lineCount)
    ensures f.origin == Manual ==> f in folds
    ensures f.origin == Auto ==> Stated(folds, ranges, lineCount, f)
  {
    var accepted := Accepted(folds, ranges, lineCount);
    var stated := AllWithState(Automatic(folds), accepted);
    if f !in Manuals(folds) {
      assert f in stated;
      var k :| 0 <= k < |stated| && stated[k] == f;
      assert accepted[k] in accepted;
      AcceptedIsStated(folds, ranges, lineCount, accepted[k]);
    }
  }

  /** A fold follows `foldlevel` exactly when no automatic fold had its header line. */
  lemma FreshExactly(folds: seq<Fold>, ranges: seq<Range>, lineCount: nat, f: Fold)
    requires Sorted(folds) && f in Joined(folds, ranges, lineCount) && f.origin == Auto
    ensures f.start in FreshStarts(Automatic(folds), Accepted(folds, ranges, lineCount)) <==> !SomeAt(folds, f.start)
  {
    var auto, accepted := Automatic(folds), Accepted(folds, ranges, lineCount);
    var stated := AllWithState(auto, accepted);
    forall k | 0 <= k < |accepted|
      ensures Remembered(auto, accepted[k]).None? <==> !SomeAt(folds, accepted[k].start)
    {
      StateRemembered(folds, accepted[k]);
    }
    assert f in stated;
    var k :| 0 <= k < |stated| && stated[k] == f;
    assert accepted[k].start == f.start;
  }

  lemma {:induction false} LevelIsByRange(a: seq<Fold>, b: seq<Fold>, i: nat)
    requires SameRanges(a, b) && i <= |a|
    ensures Ends(a[..i]) == Ends(b[..i])
  {
    if i > 0 {
      LevelIsByRange(a, b, i - 1);
      assert a[..i][..i - 1] == a[..i - 1] && b[..i][..i - 1] == b[..i - 1];
    }
  }

  /** What a recompute makes of the folds. An automatic fold in the result has a range
      that was asked for and crosses no manual fold. It keeps the state of the automatic
      fold that had its range; failing that, the state of the outermost one that had its
      header line; and with neither it is open, or open exactly up to `foldlevel`. */
  predicate Follows(folds: seq<Fold>, ranges: seq<Range>, lineCount: nat, foldlevel: Option<nat>, r: seq<Fold>,
                    k: nat) {
    k < |r| &&
    match r[k].origin
    case Manual => r[k] in folds
    case Auto =>
      Proper(ranges, lineCount, r[k]) && !CrossesAny(Manuals(folds), r[k]) && KeepsState(folds, r[k]) &&
      (!SomeAt(folds, r[k].start) ==> r[k].open == (foldlevel.None? || Level(r, k) <= foldlevel.value))
  }

  lemma NothingToKeep(folds: seq<Fold>, g: Fold)
    requires !SomeAt(folds, g.start)
    ensures KeepsState(folds, g)
  {
    forall i | 0 <= i < |folds| ensures !LastAlike(folds, g, i) && !OutermostAt(folds, g.start, i) {
      assert folds[i] in folds;
    }
  }

  lemma LeveledStillStated(folds: seq<Fold>, ranges: seq<Range>, lineCount: nat, f: Fold, open: bool)
    requires Stated(folds, ranges, lineCount, f) && !SomeAt(folds, f.start)
    ensures Proper(ranges, lineCount, f.(open := open)) && !CrossesAny(Manuals(folds), f.(open := open)) &&
            KeepsState(folds, f.(open := open))
  {
    var g := f.(open := open);
    CrossingIsByRange(Manuals(folds), f, g);
    NothingToKeep(folds, g);
  }

  lemma JoinedFollows(folds: seq<Fold>, ranges: seq<Range>, lineCount: nat, k: nat)
    requires Sorted(folds) && k < |Joined(folds, ranges, lineCount)|
    ensures Follows(folds, ranges, lineCount, None, Joined(folds, ranges, lineCount), k)
  {
    JoinedMembers(folds, ranges, lineCount, Joined(folds, ranges, lineCount)[k]);
  }

  /** A fold of the result, from what it was before `foldlevel` was looked at. */
  lemma FreshFollows(folds: seq<Fold>, ranges: seq<Range>, lineCount: nat, level: nat, f: Fold, r: seq<Fold>, k: nat)
    requires k < |r| && Stated(folds, ranges, lineCount, f)
    requires r[k] == if SomeAt(folds, f.start) then f else f.(open := Level(r, k) <= level)
    ensures Follows(folds, ranges, lineCount, Some(level), r, k)
  {
    if !SomeAt(folds, f.start) {
      LeveledStillStated(folds, ranges, lineCount, f, r[k].open);
    }
  }

  lemma LeveledIs(folds: seq<Fold>, ranges: seq<Range>, lineCount: nat, level: nat, joined: seq<Fold>, r: seq<Fold>,
                  k: nat)
    requires Sorted(folds) && joined == Joined(folds, ranges, lineCount) && k < |joined| && |r| == |joined|
    requires r == FreshLeveled(joined, FreshStarts(Automatic(folds), Accepted(folds, ranges, lineCount)), level)
    ensures r[k] == if joined[k].origin == Manual || SomeAt(folds, joined[k].start) then joined[k]
                    else joined[k].(open := Level(r, k) <= level)
  {
    if joined[k].origin == Auto {
      FreshExactly(folds, ranges, lineCount, joined[k]);
      LevelIsByRange(joined, r, k + 1);
    }
  }

  lemma LeveledFollows(folds: seq<Fold>, ranges: seq<Range>, lineCount: nat, level: nat, joined: seq<Fold>,
                       r: seq<Fold>,
                       k: nat)
    requires Sorted(folds) && joined == Joined(folds, ranges, lineCount) && k < |joined|
    requires r == FreshLeveled(joined, FreshStarts(Automatic(folds), Accepted(folds, ranges, lineCount)), level)
    ensures Follows(folds, ranges, lineCount, Some(level), r, k)
  {
    LeveledIs(folds, ranges, lineCount, level, joined, r, k);
    JoinedMembers(folds, ranges, lineCount, joined[k]);
    if joined[k].origin == Auto {
      FreshFollows(folds, ranges, lineCount, level, joined[k], r, k);
    }
  }

  lemma RecomputedStates(folds: seq<Fold>, ranges: seq<Range>, lineCount: nat, foldlevel: Option<nat>, k: nat)
    requires Sorted(folds) && k < |AutoResult(folds, ranges, lineCount, foldlevel)|
    ensures Follows(folds, ranges, lineCount, foldlevel, AutoResult(folds, ranges, lineCount, foldlevel), k)
  {
    ResultIs(folds, ranges, lineCount, foldlevel);
    if foldlevel.None? {
      JoinedFollows(folds, ranges, lineCount, k);
    } else {
      LeveledFollows(folds, ranges, lineCount, foldlevel.value, Joined(folds, ranges, lineCount),
                     AutoResult(folds, ranges, lineCount, foldlevel), k);
    }
  }

  // ----- nothing is lost -------------------------------------------------------------

  lemma {:induction false} FilterCounts(s: seq<Fold>, f: Fold)
    requires f.origin == Manual
    ensures multiset(Manuals(s))[f] == multiset(s)[f]
  {
    if s != [] {
      FilterCounts(s[..|s| - 1], f);
      assert s == s[..|s| - 1] + [s[|s| - 1]];
    }
  }

  lemma {:induction false} SameManualCount(a: seq<Fold>, b: seq<Fold>, f: Fold)
    requires |a| == |b| && f.origin == Manual
    requires forall k :: 0 <= k < |a| ==> a[k] == b[k] || (a[k].origin == Auto && b[k].origin == Auto)
    ensures multiset(a)[f] == multiset(b)[f]
  {
    if a != [] {
      SameManualCount(a[..|a| - 1], b[..|b| - 1], f);
      assert a == a[..|a| - 1] + [a[|a| - 1]] && b == b[..|b| - 1] + [b[|b| - 1]];
    }
  }

  /** Every manual fold stays as it is. */
  lemma ManualFoldsStay(folds: seq<Fold>, ranges: seq<Range>, lineCount: nat, foldlevel: Option<nat>, f: Fold)
    requires f.origin == Manual
    ensures multiset(AutoResult(folds, ranges, lineCount, foldlevel))[f] == multiset(folds)[f]
  {
    var r, joined := AutoResult(folds, ranges, lineCount, foldlevel), Joined(folds, ranges, lineCount);
    var accepted := Accepted(folds, ranges, lineCount);
    var stated := AllWithState(Automatic(folds), accepted);
    ResultIs(folds, ranges, lineCount, foldlevel);
    SameManualCount(joined, r, f);
    SortKeepsMultiset(Manuals(folds) + stated);
    FilterCounts(folds, f);
    forall k | 0 <= k < |stated| ensures stated[k].origin == Auto {
      assert accepted[k] in accepted;
      AcceptedIsProper(folds, ranges, lineCount, accepted[k]);
    }
    assert f !in stated;
  }

  /** A candidate is left out only if it crosses a manual fold or an accepted one
      that comes before it. */
  lemma {:induction false} GreedyLeavesOutCrossing(candidates: seq<Fold>, manual: seq<Fold>, c: Fold)
    requires c in candidates && c !in Greedy(candidates, manual) && !CrossesAny(manual, c) && Sorted(candidates)
    ensures exists g :: g in Greedy(candidates, manual) && g.Crosses(c) && Before(g, c)
  {
    var init, last := candidates[..|candidates| - 1], candidates[|candidates| - 1];
    assert candidates == init + [last];
    if c in init {
      GreedyLeavesOutCrossing(init, manual, c);
      var g :| g in Greedy(init, manual) && g.Crosses(c) && Before(g, c);
      assert g in Greedy(candidates, manual);
    } else {
      var accepted := Greedy(init, manual);
      var k :| 0 <= k < |accepted| && accepted[k].Crosses(c);
      GreedyComesFrom(init, manual);
      assert accepted[k] in accepted;
      var j :| 0 <= j < |init| && init[j] == accepted[k];
      assert candidates[j] == accepted[k] && Before(candidates[j], last);
    }
  }

  lemma CandidatesSorted(s: seq<Fold>)
    requires Candidates(s)
    ensures Sorted(s)
  {
  }

  lemma AcceptedStands(folds: seq<Fold>, ranges: seq<Range>, lineCount: nat, c: Fold)
    requires c in Accepted(folds, ranges, lineCount)
    ensures WithState(Automatic(folds), c) in Joined(folds, ranges, lineCount)
  {
    var accepted := Accepted(folds, ranges, lineCount);
    var k :| 0 <= k < |accepted| && accepted[k] == c;
    assert AllWithState(Automatic(folds), accepted)[k] == WithState(Automatic(folds), c);
  }

  /** A fold of the same lines and origin, whatever its state. */
  predicate Stands(r: seq<Fold>, f: Fold) {
    exists k :: 0 <= k < |r| && r[k].origin == f.origin && SameRange(r[k], f)
  }

  lemma StandsInResult(folds: seq<Fold>, ranges: seq<Range>, lineCount: nat, foldlevel: Option<nat>, f: Fold)
    requires f in Joined(folds, ranges, lineCount)
    ensures Stands(AutoResult(folds, ranges, lineCount, foldlevel), f)
  {
    var r, joined := AutoResult(folds, ranges, lineCount, foldlevel), Joined(folds, ranges, lineCount);
    ResultIs(folds, ranges, lineCount, foldlevel);
    var k :| 0 <= k < |joined| && joined[k] == f;
    assert r[k].origin == f.origin && SameRange(r[k], f);
  }

  /** An accepted fold that crosses `c` and comes before it stands in the result. */
  lemma CrossingStands(r: seq<Fold>, g: Fold, c: Fold)
    requires Stands(r, g) && g.origin == Auto && g.Crosses(c) && Before(g, c)
    ensures CrossedBefore(r, c)
  {
    var k :| 0 <= k < |r| && r[k].origin == g.origin && SameRange(r[k], g);
    assert r[k].Crosses(c) && Before(r[k], c);
  }

  lemma AcceptedCrosses(folds: seq<Fold>, ranges: seq<Range>, lineCount: nat, foldlevel: Option<nat>, g: Fold, c: Fold)
    requires g in Accepted(folds, ranges, lineCount) && g.Crosses(c) && Before(g, c)
    ensures CrossedBefore(AutoResult(folds, ranges, lineCount, foldlevel), c)
  {
    var stated := WithState(Automatic(folds), g);
    AcceptedIsProper(folds, ranges, lineCount, g);
    AcceptedStands(folds, ranges, lineCount, g);
    StandsInResult(folds, ranges, lineCount, foldlevel, stated);
    CrossingStands(AutoResult(folds, ranges, lineCount, foldlevel), stated, c);
  }

  lemma LeftOutIsCrossed(folds: seq<Fold>, ranges: seq<Range>, lineCount: nat, foldlevel: Option<nat>, c: Fold)
    requires c in Incoming(ranges, lineCount) && c !in Accepted(folds, ranges, lineCount)
    requires !CrossesAny(Manuals(folds), c)
    ensures CrossedBefore(AutoResult(folds, ranges, lineCount, foldlevel), c)
  {
    var incoming, manual := Incoming(ranges, lineCount), Manuals(folds);
    IncomingAreCandidates(ranges, lineCount);
    CandidatesSorted(incoming);
    GreedyLeavesOutCrossing(incoming, manual, c);
    var g :| g in Greedy(incoming, manual) && g.Crosses(c) && Before(g, c);
    AcceptedCrosses(folds, ranges, lineCount, foldlevel, g, c);
  }

  predicate CrossedBefore(r: seq<Fold>, c: Fold) {
    exists k :: 0 <= k < |r| && r[k].origin == Auto && r[k].Crosses(c) && Before(r[k], c)
  }

  /** Every proper range that was asked for is a fold afterwards, unless it crosses a
      manual fold or an automatic fold of the result that comes before it. */
  lemma NoRangeIsLost(folds: seq<Fold>, ranges: seq<Range>, lineCount: nat, foldlevel: Option<nat>, c: Fold)
    requires c.open && c.origin == Auto && Proper(ranges, lineCount, c)
    ensures var r := AutoResult(folds, ranges, lineCount, foldlevel);
            Stands(r, c) || CrossesAny(Manuals(folds), c) || CrossedBefore(r, c)
  {
    IncomingAreCandidates(ranges, lineCount);
    if c in Accepted(folds, ranges, lineCount) {
      AcceptedStands(folds, ranges, lineCount, c);
      StandsInResult(folds, ranges, lineCount, foldlevel, WithState(Automatic(folds), c));
    } else if !CrossesAny(Manuals(folds), c) {
      LeftOutIsCrossed(folds, ranges, lineCount, foldlevel, c);
    }
  }
}
