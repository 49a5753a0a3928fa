/** Line numbers against positions among the visible lines: the arithmetic of
    the closed-fold index against a plain count of hidden lines
    (ovim-core/src/fold.rs). */
module VisibleLines {
  import opened Basics
  import opened Folds
  import opened Search

  /** Hidden lines strictly before `n`, counted one by one. */
  function HiddenCount(folds: seq<Fold>, n: nat): (c: nat)
    ensures c <= n
  {
    if n == 0 then 0 else HiddenCount(folds, n - 1) + if HiddenBy(folds, n - 1) then 1 else 0
  }

  function VisibleCount(folds: seq<Fold>, n: nat): nat {
    n - HiddenCount(folds, n)
  }

  /** Lines before `n` in one range, and in a list of ranges. */
  function Overlap(r: Range, n: nat): int {
    if n <= r.lo then 0 else Min(r.hi, n - 1) - r.lo + 1
  }

  function Covered(ranges: seq<Range>, n: nat): int {
    if ranges == [] then 0 else Covered(ranges[..|ranges| - 1], n) + Overlap(ranges[|ranges| - 1], n)
  }

  lemma CoversLast(ranges: seq<Range>, n: nat)
    requires ranges != []
    ensures var last := ranges[|ranges| - 1];
            Covers(ranges, n) <==> Covers(ranges[..|ranges| - 1], n) || last.lo <= n <= last.hi
  {
    var init := ranges[..|ranges| - 1];
    if Covers(init, n) {
      var i :| 0 <= i < |init| && init[i].lo <= n <= init[i].hi;
      assert ranges[i].lo <= n <= ranges[i].hi;
    }
  }

  lemma {:induction false} CoveredStep(ranges: seq<Range>, n: nat)
    requires Separate(ranges)
    ensures Covered(ranges, n + 1) == Covered(ranges, n) + if Covers(ranges, n) then 1 else 0
  {
    if ranges != [] {
      CoveredStep(ranges[..|ranges| - 1], n);
      CoversLast(ranges, n);
      LastApart(ranges, n);
    }
  }

  lemma LastApart(ranges: seq<Range>, n: nat)
    requires Separate(ranges) && ranges != []
    ensures Covers(ranges[..|ranges| - 1], n) ==> n < ranges[|ranges| - 1].lo
  {
    var init := ranges[..|ranges| - 1];
    if Covers(init, n) {
      var i :| 0 <= i < |init| && init[i].lo <= n <= init[i].hi;
      assert ranges[i].hi < ranges[|ranges| - 1].lo;
    }
  }

  lemma {:induction false} CoveredZero(ranges: seq<Range>)
    ensures Covered(ranges, 0) == 0
  {
    if ranges != [] {
      CoveredZero(ranges[..|ranges| - 1]);
    }
  }

  lemma {:induction false} CoveredIsHiddenCount(folds: seq<Fold>, hidden: seq<Range>, n: nat)
    requires HiddenRanges(folds, hidden)
    ensures Covered(hidden, n) == HiddenCount(folds, n)
  {
    if n == 0 {
      CoveredZero(hidden);
    } else {
      CoveredIsHiddenCount(folds, hidden, n - 1);
      CoveredStep(hidden, n - 1);
    }
  }

  /** With `b` ranges starting before `n`, only the last of them can be cut short. */
  lemma {:induction false} CoveredByPrefix(ranges: seq<Range>, n: nat, b: nat)
    requires Separate(ranges) && b <= |ranges|
    requires forall k :: 0 <= k < b ==> ranges[k].lo < n
    requires b < |ranges| ==> ranges[b].lo >= n
    ensures Covered(ranges, n) == if b == 0 then 0 else TotalSize(ranges[..b - 1]) + Overlap(ranges[b - 1], n)
  {
    if ranges != [] {
      var init := ranges[..|ranges| - 1];
      if b == |ranges| {
        assert Separate(init);
        forall k | 0 <= k < |init| ensures init[k].hi < n {
          assert ranges[k].hi < ranges[b - 1].lo;
        }
        CoveredInFull(init, n);
      } else {
        assert ranges[|ranges| - 1].lo >= n;
        CoveredByPrefix(init, n, b);
        if b > 0 {
          assert init[..b - 1] == ranges[..b - 1];
        }
      }
    }
  }

  lemma {:induction false} CoveredInFull(ranges: seq<Range>, n: nat)
    requires Separate(ranges) && forall k :: 0 <= k < |ranges| ==> ranges[k].hi < n
    ensures Covered(ranges, n) == TotalSize(ranges)
  {
    if ranges != [] {
      CoveredInFull(ranges[..|ranges| - 1], n);
    }
  }

  /** `ranges` are exactly the hidden lines. */
  ghost predicate HiddenRanges(folds: seq<Fold>, ranges: seq<Range>) {
    Separate(ranges) && forall line: nat :: Covers(ranges, line) <==> HiddenBy(folds, line)
  }

  /** `outer` are exactly the lines of closed folds, and their bodies the hidden ones. */
  ghost predicate OuterRanges(folds: seq<Fold>, outer: seq<Range>) {
    Ascending(outer) &&
    (forall line: nat :: Covers(outer, line) <==> ClosedAt(folds, line)) &&
    (forall line: nat :: InBody(outer, line) <==> HiddenBy(folds, line))
  }

  /** Both tables of a folds' index mean what their names say, crossing folds or not. */
  lemma IndexMeans(folds: seq<Fold>)
    requires WellFormed(folds)
    ensures OuterRanges(folds, OuterOf(folds)) && HiddenRanges(folds, HiddenOf(OuterOf(folds)))
  {
    OuterAscending(folds);
    HiddenIsBodies(OuterOf(folds));
    forall line: nat
      ensures Covers(OuterOf(folds), line) <==> ClosedAt(folds, line)
      ensures InBody(OuterOf(folds), line) <==> HiddenBy(folds, line)
      ensures Covers(HiddenOf(OuterOf(folds)), line) <==> HiddenBy(folds, line)
    {
      OuterCoversClosed(folds, line);
      HiddenRangesExact(folds, line);
    }
  }

  // ----- the queries, on an index -------------------------------------------

  function StartsBy(line: nat): Range -> bool {
    (r: Range) => r.lo <= line
  }

  function OuterAt(outer: seq<Range>, line: nat): Option<Range> {
    var after := PartitionPoint(outer, StartsBy(line));
    if after > 0 && line <= outer[after - 1].hi then Some(outer[after - 1]) else None
  }

  /** With these folds in force, or none. */
  lemma OuterInForceFinds(folds: seq<Fold>, shown: seq<Fold>, line: nat)
    requires WellFormed(folds) && (shown == folds || shown == [])
    ensures var r := OuterAt(OuterOf(shown), line);
            (r.Some? <==> ClosedAt(shown, line)) &&
            (r.Some? ==> r.value in OuterOf(folds) && r.value.lo <= line <= r.value.hi) &&
            (HiddenBy(shown, line) <==> r.Some? && line > r.value.lo)
  {
    IndexMeans(shown);
    OuterAtFinds(shown, OuterOf(shown), line);
  }

  function CountBefore(index: ClosedIndex, line: nat): int
    requires |index.before| == |index.hidden|
  {
    var b := PartitionPoint(index.hidden, (r: Range) => r.lo < line);
    if b > 0
    then index.before[b - 1] + Min(index.hidden[b - 1].hi, line - 1) - index.hidden[b - 1].lo + 1
    else 0
  }

  /** The range found is the one that contains the line; none means no closed
      fold does. */
  lemma OuterAtFinds(folds: seq<Fold>, outer: seq<Range>, line: nat)
    requires OuterRanges(folds, outer)
    ensures var r := OuterAt(outer, line);
            (r.Some? <==> ClosedAt(folds, line)) &&
            (r.Some? ==> r.value in outer && r.value.lo <= line <= r.value.hi) &&
            (HiddenBy(folds, line) <==> r.Some? && line > r.value.lo)
  {
    OuterAtCovers(outer, line);
  }

  lemma OuterAtCovers(outer: seq<Range>, line: nat)
    requires Ascending(outer)
    ensures var r := OuterAt(outer, line);
            (r.Some? <==> Covers(outer, line)) &&
            (r.Some? ==> r.value in outer && r.value.lo <= line <= r.value.hi) &&
            (InBody(outer, line) <==> r.Some? && line > r.value.lo)
  {
    if Covers(outer, line) {
      var i :| 0 <= i < |outer| && outer[i].lo <= line <= outer[i].hi;
      OuterAtIs(outer, line, i);
    }
    if InBody(outer, line) {
      var i :| 0 <= i < |outer| && outer[i].lo < line <= outer[i].hi;
      OuterAtIs(outer, line, i);
    }
  }

  lemma OuterAtIs(outer: seq<Range>, line: nat, i: nat)
    requires Ascending(outer) && i < |outer| && outer[i].lo <= line <= outer[i].hi
    ensures OuterAt(outer, line) == Some(outer[i])
  {
    var after := PartitionPoint(outer, StartsBy(line));
    assert after == |outer| || !StartsBy(line)(outer[after]);
    assert i < after;
    forall k | i < k < |outer| ensures !StartsBy(line)(outer[k]) {
    }
    assert StartsBy(line)(outer[after - 1]);
  }

  lemma CountBeforeExact(index: ClosedIndex, folds: seq<Fold>, line: nat)
    requires HiddenRanges(folds, index.hidden) && IsBefore(index.hidden, index.before)
    ensures CountBefore(index, line) == HiddenCount(folds, line)
  {
    var b := PartitionPoint(index.hidden, (r: Range) => r.lo < line);
    CoveredByPrefix(index.hidden, line, b);
    CoveredIsHiddenCount(folds, index.hidden, line);
  }

  /** The shift of range `i`: hidden lines before it. */
  lemma RangeStartsPastBefore(folds: seq<Fold>, hidden: seq<Range>, i: nat)
    requires HiddenRanges(folds, hidden) && i < |hidden|
    ensures TotalSize(hidden[..i]) == HiddenCount(folds, hidden[i].lo)
  {
    CoveredIsHiddenCount(folds, hidden, hidden[i].lo);
    CoveredByPrefix(hidden, hidden[i].lo, i);
    if i > 0 {
      SizeOfNext(hidden, i - 1);
    }
  }

  lemma SizeOfNext(hidden: seq<Range>, i: nat)
    requires i < |hidden|
    ensures TotalSize(hidden[..i + 1]) == TotalSize(hidden[..i]) + (hidden[i].hi - hidden[i].lo + 1)
  {
    assert hidden[..i + 1][..i] == hidden[..i];
  }

  /** Visible index at which range `i` begins to hide. */
  function HidesFrom(hidden: seq<Range>, i: nat): int
    requires i < |hidden|
  {
    hidden[i].lo - TotalSize(hidden[..i])
  }

  lemma {:induction false} HidesFromAscends(hidden: seq<Range>, i: nat, j: nat)
    requires Separate(hidden) && i < j < |hidden|
    ensures HidesFrom(hidden, i) < HidesFrom(hidden, j)
    decreases j
  {
    SizeOfNext(hidden, j - 1);
    assert hidden[j - 1].hi + 1 < hidden[j].lo;
    if i < j - 1 {
      HidesFromAscends(hidden, i, j - 1);
    }
  }

  /** Line `n` is the `index`-th visible line. */
  predicate IsVisibleAt(folds: seq<Fold>, line: nat, index: nat) {
    !HiddenBy(folds, line) && VisibleCount(folds, line) == index
  }

  /** The shift by the ranges that begin at or before a visible index lands on
      the visible line with that index. */
  lemma ShiftLandsOnVisible(folds: seq<Fold>, hidden: seq<Range>, index: nat, low: nat)
    requires HiddenRanges(folds, hidden) && low <= |hidden|
    requires forall k :: 0 <= k < low ==> HidesFrom(hidden, k) <= index
    requires low < |hidden| ==> HidesFrom(hidden, low) > index
    ensures TotalSize(hidden[..low]) >= 0
    ensures IsVisibleAt(folds, index + TotalSize(hidden[..low]), index)
  {
    if low > 0 {
      SizeOfNext(hidden, low - 1);
      RangeStartsPastBefore(folds, hidden, low - 1);
      assert HidesFrom(hidden, low - 1) <= index;
    }
    var line := index + TotalSize(hidden[..low]);
    assert low > 0 ==> line > hidden[low - 1].hi;
    assert low < |hidden| ==> line < hidden[low].lo;
    BetweenRanges(hidden, low, line);
    CoveredIsHiddenCount(folds, hidden, line);
    CoveredByPrefix(hidden, line, low);
  }

  lemma BetweenRanges(hidden: seq<Range>, low: nat, line: nat)
    requires Separate(hidden) && low <= |hidden|
    requires low > 0 ==> line > hidden[low - 1].hi
    requires low < |hidden| ==> line < hidden[low].lo
    ensures !Covers(hidden, line)
    ensures forall k :: 0 <= k < low ==> hidden[k].lo < line
  {
    forall k | 0 <= k < |hidden| ensures if k < low then hidden[k].hi < line else line < hidden[k].lo {
      if k < low - 1 {
        assert hidden[k].hi + 1 < hidden[low - 1].lo;
      } else if k > low {
        assert hidden[low].hi + 1 < hidden[k].lo;
      }
    }
  }

  lemma {:induction false} VisibleCountMonotone(folds: seq<Fold>, a: nat, b: nat)
    requires a <= b
    ensures VisibleCount(folds, a) <= VisibleCount(folds, b)
    ensures a < b && !HiddenBy(folds, a) ==> VisibleCount(folds, a) < VisibleCount(folds, b)
    decreases b
  {
    if a < b {
      VisibleCountMonotone(folds, a, b - 1);
    }
  }

  /** A visible line is determined by its visible index. */
  lemma VisibleIndexInjective(folds: seq<Fold>, a: nat, b: nat, index: nat)
    requires IsVisibleAt(folds, a, index) && IsVisibleAt(folds, b, index)
    ensures a == b
  {
    if a < b {
      VisibleCountMonotone(folds, a, b);
    } else if b < a {
      VisibleCountMonotone(folds, b, a);
    }
  }

  /** The line below a visible line: past its fold if it heads a closed one. */
  lemma LineBelow(folds: seq<Fold>, outer: seq<Range>, line: nat)
    requires OuterRanges(folds, outer) && !HiddenBy(folds, line)
    ensures var r := OuterAt(outer, line);
            var after := if r.Some? then r.value.hi + 1 else line + 1;
            after > line && IsVisibleAt(folds, after, VisibleCount(folds, line) + 1) &&
            forall k :: line < k < after ==> HiddenBy(folds, k)
  {
    var r := OuterAt(outer, line);
    OuterAtFinds(folds, outer, line);
    if r.Some? {
      var i :| 0 <= i < |outer| && outer[i] == r.value;
      BodyIsHidden(folds, outer, i);
      HiddenRun(folds, line + 1, r.value.hi + 1);
    }
  }

  /** An outer range hides its body, and neither its header nor what follows. */
  lemma BodyIsHidden(folds: seq<Fold>, outer: seq<Range>, i: nat)
    requires OuterRanges(folds, outer) && i < |outer|
    ensures forall k :: outer[i].lo < k <= outer[i].hi ==> HiddenBy(folds, k)
    ensures !HiddenBy(folds, outer[i].hi + 1) && !HiddenBy(folds, outer[i].lo)
  {
    forall k: nat | outer[i].lo < k <= outer[i].hi ensures HiddenBy(folds, k) {
      assert InBody(outer, k);
    }
    assert !InBody(outer, outer[i].hi + 1) && !InBody(outer, outer[i].lo);
  }

  /** A run of hidden lines adds nothing to the visible count. */
  lemma {:induction false} HiddenRun(folds: seq<Fold>, a: nat, b: nat)
    requires a <= b && forall k :: a <= k < b ==> HiddenBy(folds, k)
    ensures VisibleCount(folds, b) == VisibleCount(folds, a)
    decreases b
  {
    if a < b {
      HiddenRun(folds, a, b - 1);
    }
  }

  predicate AllHidden(folds: seq<Fold>, from: nat, to: nat) {
    from <= to && forall k :: from <= k < to ==> HiddenBy(folds, k)
  }

  lemma HiddenThrough(folds: seq<Fold>, outer: seq<Range>, from: nat, to: nat, r: Range)
    requires OuterRanges(folds, outer) && AllHidden(folds, from, to) && r in outer && r.lo < to <= r.hi
    ensures AllHidden(folds, from, r.hi + 1)
  {
    BodyOfIsHidden(folds, outer, r);
  }

  lemma BodyOfIsHidden(folds: seq<Fold>, outer: seq<Range>, r: Range)
    requires OuterRanges(folds, outer) && r in outer
    ensures forall k :: r.lo < k <= r.hi ==> HiddenBy(folds, k)
  {
    var i :| 0 <= i < |outer| && outer[i] == r;
    BodyIsHidden(folds, outer, i);
  }

  /** `above` is the visible line before `line`, if that is visible. */
  ghost predicate PreviousShown(folds: seq<Fold>, line: nat, above: nat) {
    !HiddenBy(folds, line) ==>
      VisibleCount(folds, line) >= 1 && IsVisibleAt(folds, above, VisibleCount(folds, line) - 1)
  }

  /** The header of the range the line above stands in, or the line above. */
  function Above(outer: seq<Range>, line: nat): nat
    requires line > 0
  {
    var r := OuterAt(outer, line - 1);
    if r.Some? then r.value.lo else line - 1
  }

  lemma LineAboveIsShown(folds: seq<Fold>, shown: seq<Fold>, line: nat)
    requires WellFormed(folds) && (shown == folds || shown == []) && line > 0
    ensures Above(OuterOf(shown), line) < line && PreviousShown(shown, line, Above(OuterOf(shown), line))
  {
    IndexMeans(shown);
    OuterAtFinds(shown, OuterOf(shown), line - 1);
    if !HiddenBy(shown, line) {
      LineAbove(shown, OuterOf(shown), line);
    }
  }

  /** The line above a visible line: the header of the closed fold there, if any. */
  lemma LineAbove(folds: seq<Fold>, outer: seq<Range>, line: nat)
    requires OuterRanges(folds, outer) && !HiddenBy(folds, line) && line > 0
    ensures PreviousShown(folds, line, Above(outer, line))
  {
    var r := OuterAt(outer, line - 1);
    OuterAtFinds(folds, outer, line - 1);
    if r.Some? {
      HeaderAbove(folds, outer, r.value, line);
    }
  }

  lemma HeaderAbove(folds: seq<Fold>, outer: seq<Range>, r: Range, line: nat)
    requires OuterRanges(folds, outer) && !HiddenBy(folds, line)
    requires r in outer && r.lo < line <= r.hi + 1
    ensures VisibleCount(folds, line) == VisibleCount(folds, r.lo) + 1 && !HiddenBy(folds, r.lo)
  {
    var i :| 0 <= i < |outer| && outer[i] == r;
    BodyIsHidden(folds, outer, i);
    HiddenRun(folds, r.lo + 1, line);
  }

  /** With the last visible line at or above `max` reached, there is no further. */
  lemma LastVisible(folds: seq<Fold>, line: nat, after: nat, max: nat)
    requires line <= max < after && !HiddenBy(folds, line)
    requires forall k :: line < k < after ==> HiddenBy(folds, k)
    ensures VisibleCount(folds, max + 1) == VisibleCount(folds, line) + 1
  {
    HiddenRun(folds, line + 1, max + 1);
  }
}
