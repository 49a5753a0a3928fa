/** Folds, and what the closed ones hide (ovim-core/src/fold.rs). */
module Folds {
  import opened Basics

  datatype Origin = Manual | Auto

  datatype Fold = Fold(start: nat, end: nat, open: bool, origin: Origin) {
    predicate Contains(line: nat) {
      start <= line <= end
    }

    predicate Overlaps(other: Fold) {
      !(end < other.start || start > other.end)
    }

    predicate Encloses(other: Fold) {
      start <= other.start && other.end <= end
    }

    predicate Crosses(other: Fold) {
      Overlaps(other) && !Encloses(other) && !other.Encloses(this)
    }

    /** Closed, and `line` is in its body: the header stays visible. */
    predicate Hides(line: nat) {
      !open && start < line <= end
    }
  }

  /** Sort order: by start, and the longer fold first. */
  predicate Before(a: Fold, b: Fold) {
    a.start < b.start || (a.start == b.start && a.end >= b.end)
  }

  predicate Sorted(folds: seq<Fold>) {
    forall i, j :: 0 <= i < j < |folds| ==> Before(folds[i], folds[j])
  }

  predicate NonTrivial(folds: seq<Fold>) {
    forall i :: 0 <= i < |folds| ==> folds[i].start < folds[i].end
  }

  /** Pairwise nested or disjoint. */
  predicate Laminar(folds: seq<Fold>) {
    forall i, j :: 0 <= i < j < |folds| ==> !folds[i].Crosses(folds[j])
  }

  /** The state every operation keeps. */
  predicate WellFormed(folds: seq<Fold>) {
    Sorted(folds) && NonTrivial(folds)
  }

  predicate HiddenBy(folds: seq<Fold>, line: nat) {
    exists k :: 0 <= k < |folds| && folds[k].Hides(line)
  }

  predicate ClosedAt(folds: seq<Fold>, line: nat) {
    exists k :: 0 <= k < |folds| && !folds[k].open && folds[k].Contains(line)
  }

  // ----- the index of closed folds --------------------------------------------

  datatype Range = Range(lo: nat, hi: nat)

  function Max(a: nat, b: nat): nat {
    if a >= b then a else b
  }

  datatype ClosedIndex = ClosedIndex(outer: seq<Range>, hidden: seq<Range>, before: seq<nat>)

  function AddOuter(outer: seq<Range>, f: Fold): seq<Range> {
    if outer != [] && f.start <= outer[|outer| - 1].hi
    then outer[..|outer| - 1] + [Range(outer[|outer| - 1].lo, Max(outer[|outer| - 1].hi, f.end))]
    else outer + [Range(f.start, f.end)]
  }

  function OuterOf(folds: seq<Fold>): seq<Range> {
    if folds == [] then []
    else
      var rest := OuterOf(folds[..|folds| - 1]);
      if folds[|folds| - 1].open then rest else AddOuter(rest, folds[|folds| - 1])
  }

  function AddHidden(hidden: seq<Range>, r: Range): seq<Range> {
    if hidden != [] && r.lo + 1 <= hidden[|hidden| - 1].hi + 1
    then hidden[..|hidden| - 1] + [Range(hidden[|hidden| - 1].lo, Max(hidden[|hidden| - 1].hi, r.hi))]
    else hidden + [Range(r.lo + 1, r.hi)]
  }

  function HiddenOf(outer: seq<Range>): seq<Range> {
    if outer == [] then [] else AddHidden(HiddenOf(outer[..|outer| - 1]), outer[|outer| - 1])
  }

  /** Lines in the ranges together, counting each range in full. */
  function TotalSize(ranges: seq<Range>): int {
    if ranges == [] then 0
    else TotalSize(ranges[..|ranges| - 1]) + (ranges[|ranges| - 1].hi - ranges[|ranges| - 1].lo + 1)
  }

  /** Non-empty, ascending, and never touching. */
  predicate Separate(ranges: seq<Range>) {
    (forall i :: 0 <= i < |ranges| ==> ranges[i].lo <= ranges[i].hi) &&
    (forall i, j :: 0 <= i < j < |ranges| ==> ranges[i].hi + 1 < ranges[j].lo)
  }

  predicate Ascending(ranges: seq<Range>) {
    (forall i :: 0 <= i < |ranges| ==> ranges[i].lo < ranges[i].hi) &&
    (forall i, j :: 0 <= i < j < |ranges| ==> ranges[i].hi < ranges[j].lo)
  }

  predicate Covers(ranges: seq<Range>, line: nat) {
    exists i :: 0 <= i < |ranges| && ranges[i].lo <= line <= ranges[i].hi
  }

  /** In the body of one of the outer ranges. */
  predicate InBody(outer: seq<Range>, line: nat) {
    exists i :: 0 <= i < |outer| && outer[i].lo < line <= outer[i].hi
  }

  lemma {:induction false} OuterAscending(folds: seq<Fold>)
    requires WellFormed(folds)
    ensures Ascending(OuterOf(folds))
    ensures OuterOf(folds) != [] ==> |folds| > 0 && OuterOf(folds)[|OuterOf(folds)| - 1].lo <= folds[|folds| - 1].start
  {
    if folds != [] {
      var init, f := folds[..|folds| - 1], folds[|folds| - 1];
      OuterAscending(init);
      if !f.open {
        if init != [] {
          assert Before(folds[|folds| - 2], f);
        }
        AddOuterAscending(OuterOf(init), f);
      }
    }
  }

  lemma AddOuterAscending(outer: seq<Range>, f: Fold)
    requires Ascending(outer) && f.start < f.end
    requires outer != [] ==> outer[|outer| - 1].lo <= f.start
    ensures var r := AddOuter(outer, f); Ascending(r) && r != [] && r[|r| - 1].lo <= f.start
  {
  }

  /** The outer ranges cover exactly the lines of closed folds, and their bodies
      exactly the hidden lines, even where folds cross. */
  lemma {:induction false} OuterCoversClosed(folds: seq<Fold>, line: nat)
    requires WellFormed(folds)
    ensures Covers(OuterOf(folds), line) <==> ClosedAt(folds, line)
    ensures InBody(OuterOf(folds), line) <==> HiddenBy(folds, line)
  {
    if folds != [] {
      var init, f := folds[..|folds| - 1], folds[|folds| - 1];
      OuterCoversClosed(init, line);
      OuterAscending(init);
      LastFold(folds, line);
      if !f.open {
        AddOuterCovers(OuterOf(init), f, line);
      }
    }
  }

  lemma LastFold(folds: seq<Fold>, line: nat)
    requires folds != []
    ensures var init, f := folds[..|folds| - 1], folds[|folds| - 1];
            (ClosedAt(folds, line) <==> ClosedAt(init, line) || (!f.open && f.Contains(line))) &&
            (HiddenBy(folds, line) <==> HiddenBy(init, line) || f.Hides(line))
  {
    var init, f := folds[..|folds| - 1], folds[|folds| - 1];
    if ClosedAt(init, line) {
      var k :| 0 <= k < |init| && !init[k].open && init[k].Contains(line);
      assert folds[k] == init[k];
    }
    if HiddenBy(init, line) {
      var k :| 0 <= k < |init| && init[k].Hides(line);
      assert folds[k] == init[k];
    }
    if ClosedAt(folds, line) {
      var k :| 0 <= k < |folds| && !folds[k].open && folds[k].Contains(line);
      assert k < |init| ==> folds[k] == init[k];
    }
    if HiddenBy(folds, line) {
      var k :| 0 <= k < |folds| && folds[k].Hides(line);
      assert k < |init| ==> folds[k] == init[k];
    }
  }

  lemma AddOuterCovers(outer: seq<Range>, f: Fold, line: nat)
    requires outer != [] ==> outer[|outer| - 1].lo <= f.start && outer[|outer| - 1].lo < outer[|outer| - 1].hi
    requires f.start < f.end
    ensures Covers(AddOuter(outer, f), line) <==> Covers(outer, line) || f.start <= line <= f.end
    ensures InBody(AddOuter(outer, f), line) <==> InBody(outer, line) || f.start < line <= f.end
  {
    var r, n := AddOuter(outer, f), |outer|;
    assert r[|r| - 1].lo <= f.start;
    assert forall i :: 0 <= i < n - 1 ==> r[i] == outer[i];
    if Covers(outer, line) {
      var i :| 0 <= i < n && outer[i].lo <= line <= outer[i].hi;
      assert r[i].lo <= line <= r[i].hi;
    }
    if InBody(outer, line) {
      var i :| 0 <= i < n && outer[i].lo < line <= outer[i].hi;
      assert r[i].lo < line <= r[i].hi;
    }
    if f.start <= line <= f.end {
      assert r[|r| - 1].lo <= line <= r[|r| - 1].hi;
    }
    if f.start < line <= f.end {
      assert r[|r| - 1].lo < line <= r[|r| - 1].hi;
    }
  }

  /** Each hidden range is the body of the outer range in its place. */
  predicate AreBodies(hidden: seq<Range>, outer: seq<Range>) {
    |hidden| == |outer| && forall i :: 0 <= i < |outer| ==> hidden[i] == Range(outer[i].lo + 1, outer[i].hi)
  }

  /** Outer ranges never touch closely enough for their bodies to be joined. */
  lemma {:induction false} HiddenIsBodies(outer: seq<Range>)
    requires Ascending(outer)
    ensures AreBodies(HiddenOf(outer), outer) && Separate(HiddenOf(outer))
  {
    if outer != [] {
      HiddenIsBodies(outer[..|outer| - 1]);
      NextBody(HiddenOf(outer[..|outer| - 1]), outer);
    }
    BodiesAreSeparate(HiddenOf(outer), outer);
  }

  lemma NextBody(hidden: seq<Range>, outer: seq<Range>)
    requires outer != [] && Ascending(outer) && AreBodies(hidden, outer[..|outer| - 1])
    ensures AreBodies(AddHidden(hidden, outer[|outer| - 1]), outer)
  {
  }

  lemma BodiesAreSeparate(hidden: seq<Range>, outer: seq<Range>)
    requires Ascending(outer) && AreBodies(hidden, outer)
    ensures Separate(hidden)
  {
  }

  /** The hidden ranges are the hidden lines: ascending, never adjacent, exact. */
  lemma HiddenRangesExact(folds: seq<Fold>, line: nat)
    requires WellFormed(folds)
    ensures Separate(HiddenOf(OuterOf(folds)))
    ensures Covers(HiddenOf(OuterOf(folds)), line) <==> HiddenBy(folds, line)
  {
    var outer := OuterOf(folds);
    OuterAscending(folds);
    HiddenIsBodies(outer);
    OuterCoversClosed(folds, line);
    if InBody(outer, line) {
      var i :| 0 <= i < |outer| && outer[i].lo < line <= outer[i].hi;
      assert HiddenOf(outer)[i].lo <= line <= HiddenOf(outer)[i].hi;
    }
  }

  predicate IsBefore(hidden: seq<Range>, before: seq<nat>) {
    |before| == |hidden| && forall i :: 0 <= i < |hidden| ==> before[i] == TotalSize(hidden[..i])
  }

  /** The index that belongs to a list of folds. */
  predicate IsIndexOf(index: ClosedIndex, folds: seq<Fold>) {
    index.outer == OuterOf(folds) && index.hidden == HiddenOf(index.outer) && IsBefore(index.hidden, index.before)
  }

  method BuildOuter(folds: seq<Fold>) returns (outer: seq<Range>)
    ensures outer == OuterOf(folds)
  {
    outer := [];
    for i := 0 to |folds|
      invariant outer == OuterOf(folds[..i])
    {
      assert folds[..i + 1][..i] == folds[..i];
      if !folds[i].open {
        if outer != [] && folds[i].start <= outer[|outer| - 1].hi {
          outer := outer[|outer| - 1 := Range(outer[|outer| - 1].lo, Max(outer[|outer| - 1].hi, folds[i].end))];
        } else {
          outer := outer + [Range(folds[i].start, folds[i].end)];
        }
      }
    }
    assert folds[..|folds|] == folds;
  }

  method BuildHidden(outer: seq<Range>) returns (hidden: seq<Range>)
    ensures hidden == HiddenOf(outer)
  {
    hidden := [];
    for i := 0 to |outer|
      invariant hidden == HiddenOf(outer[..i])
    {
      assert outer[..i + 1][..i] == outer[..i];
      var start, end := outer[i].lo + 1, outer[i].hi;
      if hidden != [] && start <= hidden[|hidden| - 1].hi + 1 {
        hidden := hidden[|hidden| - 1 := Range(hidden[|hidden| - 1].lo, Max(hidden[|hidden| - 1].hi, end))];
      } else {
        hidden := hidden + [Range(start, end)];
      }
    }
    assert outer[..|outer|] == outer;
  }

  method BuildIndex(folds: seq<Fold>) returns (index: ClosedIndex)
    requires WellFormed(folds)
    ensures IsIndexOf(index, folds)
  {
    var outer := BuildOuter(folds);
    var hidden := BuildHidden(outer);
    OuterAscending(folds);
    HiddenIsBodies(outer);
    var before := BuildBefore(hidden);
    index := ClosedIndex(outer, hidden, before);
  }

  method BuildBefore(hidden: seq<Range>) returns (before: seq<nat>)
    requires Separate(hidden)
    ensures IsBefore(hidden, before)
  {
    var total := 0;
    before := [];
    for i := 0 to |hidden|
      invariant |before| == i && total == TotalSize(hidden[..i]) && total >= 0
      invariant forall k :: 0 <= k < i ==> before[k] == TotalSize(hidden[..k])
    {
      assert hidden[..i + 1][..i] == hidden[..i];
      before := before + [total];
      total := total + (hidden[i].hi - hidden[i].lo + 1);
    }
  }

  /** In a nested-or-disjoint family every outer range is itself a closed fold,
      the one that encloses all closed folds meeting it. */
  lemma {:induction false} OuterIsAFold(folds: seq<Fold>, i: nat)
    requires WellFormed(folds) && Laminar(folds) && i < |OuterOf(folds)|
    ensures exists k: nat :: IsClosedFold(folds, k, OuterOf(folds)[i])
  {
    var n, rest := |folds| - 1, OuterOf(folds[..|folds| - 1]);
    if i < |rest| {
      OuterIsAFold(folds[..n], i);
      var k: nat :| IsClosedFold(folds[..n], k, rest[i]);
      OuterAscending(folds[..n]);
      if !folds[n].open {
        assert !folds[k].Crosses(folds[n]) && Before(folds[k], folds[n]);
        UncrossedStays(rest, folds[n], i);
      }
      assert IsClosedFold(folds, k, OuterOf(folds)[i]);
    } else {
      assert IsClosedFold(folds, n, OuterOf(folds)[i]);
    }
  }

  /** `r` is the range of the closed fold at `k`. */
  predicate IsClosedFold(folds: seq<Fold>, k: nat, r: Range) {
    k < |folds| && !folds[k].open && r == Range(folds[k].start, folds[k].end)
  }

  /** A later fold that does not cross an outer range leaves it as it is. */
  lemma UncrossedStays(outer: seq<Range>, f: Fold, i: nat)
    requires Ascending(outer) && i < |outer|
    requires f.start > outer[i].hi || f.end <= outer[i].hi
    ensures i < |AddOuter(outer, f)| && AddOuter(outer, f)[i] == outer[i]
  {
  }
}
