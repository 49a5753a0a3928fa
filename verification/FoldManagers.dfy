/** The fold manager as it updates its folds and its cached index of closed
    folds (ovim-core/src/fold.rs). */
module FoldManagers {
  import opened Basics
  import opened Folds
  import opened Search
  import opened VisibleLines
  import opened FoldOrder
  import opened FoldLevels
  import opened FoldUpdates

  datatype Source = Indent | Syntax | Lsp

  /** What other folds count as: one change, or none if they are the same. */
  function Changes(before: seq<Fold>, now: seq<Fold>): nat {
    if now == before then 0 else 1
  }

  /** The first closed fold containing `line`, in list order. */
  predicate IsFirstClosed(folds: seq<Fold>, line: nat, k: nat) {
    k < |folds| && folds[k].Contains(line) && !folds[k].open &&
    forall j :: 0 <= j < k && folds[j].Contains(line) ==> folds[j].open
  }

  /** The last fold of the open run that begins the chain around `line`. */
  predicate IsDeepestOpen(folds: seq<Fold>, line: nat, k: nat) {
    k < |folds| && folds[k].Contains(line) && folds[k].open &&
    (forall j :: 0 <= j < k && folds[j].Contains(line) ==> folds[j].open) &&
    (forall j :: k < j < |folds| && folds[j].Contains(line) && folds[j].open ==>
                 exists i :: k < i < j && folds[i].Contains(line) && !folds[i].open)
  }

  function WithOpen(folds: seq<Fold>, k: nat, open: bool): (r: seq<Fold>)
    requires k < |folds|
    ensures SameRanges(folds, r)
  {
    folds[k := folds[k].(open := open)]
  }

  /** `zo` takes back a `zc` at the same line, whatever the folds. */
  lemma OpenUndoesClose(folds: seq<Fold>, line: nat, k: nat)
    requires IsDeepestOpen(folds, line, k)
    ensures IsFirstClosed(WithOpen(folds, k, false), line, k)
    ensures WithOpen(WithOpen(folds, k, false), k, true) == folds
  {
  }

  /** Every fold containing `line` set to `open`. */
  function AllAround(folds: seq<Fold>, line: nat, open: bool): (r: seq<Fold>)
    ensures SameRanges(folds, r)
    ensures forall i :: 0 <= i < |folds| ==>
              r[i] == if folds[i].Contains(line) then folds[i].(open := open) else folds[i]
  {
    seq(|folds|, i requires 0 <= i < |folds| =>
      if folds[i].Contains(line) then folds[i].(open := open) else folds[i])
  }

  method RangeAt(outer: seq<Range>, line: nat) returns (r: Option<Range>)
    ensures r == OuterAt(outer, line)
  {
    var after := PartitionPoint(outer, StartsBy(line));
    if after > 0 && line <= outer[after - 1].hi {
      r := Some(outer[after - 1]);
    } else {
      r := None;
    }
  }

  class FoldManager {
    var folds: seq<Fold>
    var enabled: bool
    var syncedLineCount: nat
    var autoVersion: Option<nat>
    var source: Source
    var foldlevel: Option<nat>
    var generation: nat
    var closed: Option<ClosedIndex>

    /** Folds in order and non-empty; the cached index, if any, is theirs. */
    predicate Valid()
      reads this`folds, this`closed
    {
      WellFormed(folds) && (closed.Some? ==> IsIndexOf(closed.value, folds))
    }

    /** The folds that take effect: none while folding is disabled. */
    function InForce(): (r: seq<Fold>)
      reads this`folds, this`enabled
      ensures WellFormed(folds) ==> WellFormed(r)
    {
      if enabled then folds else []
    }

    constructor ()
      ensures Valid() && folds == [] && enabled && foldlevel == None
      ensures syncedLineCount == 0 && autoVersion == None && source == Indent
    {
      folds, enabled, syncedLineCount, autoVersion, source := [], true, 0, None, Indent;
      foldlevel, generation, closed := None, 1, None;
    }

    /** Records a change: a new generation, and no cached index. */
    method Touch()
      modifies this`generation, this`closed
      ensures generation == old(generation) + 1 && closed == None
    {
      generation := generation + 1;
      closed := None;
    }

    method Index() returns (index: ClosedIndex)
      requires Valid()
      modifies this`closed
      ensures Valid() && IsIndexOf(index, folds)
      ensures OuterRanges(folds, index.outer) && HiddenRanges(folds, index.hidden)
    {
      if closed.None? {
        var built := BuildIndex(folds);
        closed := Some(built);
      }
      index := closed.value;
      IndexMeans(folds);
    }

    method SetEnabled(value: bool)
      requires Valid()
      modifies this`enabled, this`generation, this`closed
      ensures Valid() && enabled == value
      ensures generation == if value == old(enabled) then old(generation) else old(generation) + 1
    {
      if enabled != value {
        enabled := value;
        Touch();
      }
    }

    // ----- queries ---------------------------------------------------------------

    method ClosedFoldAt(line: nat) returns (r: Option<Range>)
      requires Valid()
      modifies this`closed
      ensures Valid() && r == OuterAt(OuterOf(InForce()), line)
      ensures r.Some? <==> ClosedAt(InForce(), line)
      ensures r.Some? ==> r.value in OuterOf(folds) && r.value.lo <= line <= r.value.hi
      ensures HiddenBy(InForce(), line) <==> r.Some? && line > r.value.lo
    {
      r := OuterRangeAt(line);
      OuterInForceFinds(folds, InForce(), line);
    }

    /** The binary search behind it. */
    method OuterRangeAt(line: nat) returns (r: Option<Range>)
      requires Valid()
      modifies this`closed
      ensures Valid() && r == OuterAt(OuterOf(InForce()), line)
    {
      if !enabled {
        return None;
      }
      var index := Index();
      r := RangeAt(index.outer, line);
    }

    /** A line is hidden exactly when some closed fold in force has it in its body. */
    method IsLineHidden(line: nat) returns (hidden: bool)
      requires Valid()
      modifies this`closed
      ensures Valid() && hidden == HiddenBy(InForce(), line)
    {
      var r := ClosedFoldAt(line);
      hidden := r.Some? && line > r.value.lo;
    }

    method Hidden() returns (ranges: seq<Range>)
      requires Valid()
      modifies this`closed
      ensures Valid() && HiddenRanges(InForce(), ranges)
    {
      if !enabled {
        return [];
      }
      var index := Index();
      ranges := index.hidden;
    }

    method HiddenCountBefore(line: nat) returns (count: nat)
      requires Valid()
      modifies this`closed
      ensures Valid() && count == HiddenCount(InForce(), line)
    {
      if !enabled {
        NothingHidden(line);
        return 0;
      }
      var index := Index();
      CountBeforeExact(index, folds, line);
      var before := PartitionPoint(index.hidden, (r: Range) => r.lo < line);
      if before > 0 {
        var last := index.hidden[before - 1];
        count := index.before[before - 1] + Min(last.hi, line - 1) - last.lo + 1;
      } else {
        count := 0;
      }
    }

    method VisibleIndex(line: nat) returns (index: nat)
      requires Valid()
      modifies this`closed
      ensures Valid() && index == VisibleCount(InForce(), line)
    {
      var count := HiddenCountBefore(line);
      index := line - Min(count, line);
    }

    /** The inverse of `VisibleIndex` on visible lines: by injectivity of the
        visible index there is no other line it could return. */
    method LineAtVisibleIndex(index: nat) returns (line: nat)
      requires Valid()
      modifies this`closed
      ensures Valid() && IsVisibleAt(InForce(), line, index)
      ensures forall other: nat :: IsVisibleAt(InForce(), other, index) ==> other == line
    {
      if !enabled {
        NothingHidden(index);
        line := index;
      } else {
        var idx := Index();
        line := ShiftedBy(idx.hidden, idx.before, index, folds);
      }
      OnlyOneAt(InForce(), line, index);
    }

    method NextVisibleLine(line: nat, lineCount: nat) returns (r: Option<nat>)
      requires Valid()
      modifies this`closed
      ensures Valid()
      ensures r.Some? ==> line <= r.value < lineCount && !HiddenBy(InForce(), r.value) &&
                          forall k :: line <= k < r.value ==> HiddenBy(InForce(), k)
      ensures r.None? ==> forall k :: line <= k < lineCount ==> HiddenBy(InForce(), k)
    {
      var candidate := line;
      while candidate < lineCount
        invariant Valid() && AllHidden(InForce(), line, candidate)
      {
        var c := ClosedFoldAt(candidate);
        if c.Some? && candidate > c.value.lo {
          InForceMeans();
          HiddenThrough(InForce(), OuterOf(InForce()), line, candidate, c.value);
          candidate := c.value.hi + 1;
        } else {
          return Some(candidate);
        }
      }
      return None;
    }

    lemma InForceMeans()
      requires Valid()
      ensures OuterRanges(InForce(), OuterOf(InForce()))
    {
      IndexMeans(InForce());
    }

    /** Past the fold `current` stands on, or one line down. */
    method LineAfter(current: nat) returns (after: nat)
      requires Valid()
      modifies this`closed
      ensures Valid() && after > current
      ensures !HiddenBy(InForce(), current) ==> NextShown(InForce(), current, after)
    {
      InForceMeans();
      ghost var shown, outer := InForce(), OuterOf(InForce());
      var c := ClosedFoldAt(current);
      after := Past(c, current);
      if !HiddenBy(shown, current) {
        NextIsShown(shown, outer, current);
      }
    }

    /** `j`: as far down as `count` visible lines, but not past the last visible
        line at or above `maxLine`; a line below `maxLine` is not left. */
    method StepDown(line: nat, count: nat, maxLine: nat) returns (current: nat)
      requires Valid()
      modifies this`closed
      ensures Valid() && current >= line
      ensures line > maxLine ==> current == line
      ensures line <= maxLine ==> current <= maxLine
      ensures line <= maxLine && !HiddenBy(InForce(), line) ==> SteppedDown(InForce(), line, count, maxLine, current)
    {
      current := line;
      ghost var shown, first := InForce(), VisibleCount(InForce(), line);
      ghost var regular := line <= maxLine && !HiddenBy(shown, line);
      for n := 0 to count
        invariant Valid() && line <= current && (current == line || current <= maxLine)
        invariant regular ==> current <= maxLine && IsVisibleAt(shown, current, first + n)
      {
        var after := LineAfter(current);
        if after > maxLine {
          if regular {
            StoppedAt(shown, line, current, after, maxLine, n, count);
          }
          return;
        }
        current := after;
      }
      if regular {
        ReachedCount(shown, line, current, maxLine, count);
      }
    }

    /** The header of the fold the line above stands in, or the line above. */
    method LineBefore(current: nat) returns (above: nat)
      requires Valid() && current > 0
      modifies this`closed
      ensures Valid() && above == Above(OuterOf(InForce()), current)
    {
      var c := OuterRangeAt(current - 1);
      above := if c.Some? then c.value.lo else current - 1;
    }

    /** `k`: up `count` visible lines, stopping at the first line. */
    method StepUp(line: nat, count: nat) returns (current: nat)
      requires Valid()
      modifies this`closed
      ensures Valid() && current <= line
      ensures !HiddenBy(InForce(), line) ==>
                IsVisibleAt(InForce(), current,
                            if VisibleCount(InForce(), line) >= count then VisibleCount(InForce(), line) - count else 0)
    {
      current := line;
      ghost var shown, first := InForce(), VisibleCount(InForce(), line);
      for n := 0 to count
        invariant Valid() && current <= line
        invariant !HiddenBy(shown, line) ==> IsVisibleAt(shown, current, if first >= n then first - n else 0)
      {
        if current == 0 {
          return;
        }
        LineAboveIsShown(folds, shown, current);
        current := LineBefore(current);
      }
    }

    // ----- opening and closing ------------------------------------------------------

    method OpenOne(line: nat) returns (changed: bool)
      requires Valid()
      modifies this`folds, this`generation, this`closed
      ensures Valid()
      ensures !changed ==>
                folds == old(folds) && forall k :: 0 <= k < |folds| && folds[k].Contains(line) ==> folds[k].open
      ensures changed ==> exists k :: IsFirstClosed(old(folds), line, k) && folds == WithOpen(old(folds), k, true)
      ensures generation == if changed then old(generation) + 1 else old(generation)
    {
      for i := 0 to |folds|
        invariant Valid() && folds == old(folds) && generation == old(generation)
        invariant forall j :: 0 <= j < i && folds[j].Contains(line) ==> folds[j].open
      {
        if folds[i].Contains(line) && !folds[i].open {
          SameRangesSameShape(folds, WithOpen(folds, i, true));
          folds := folds[i := folds[i].(open := true)];
          Touch();
          assert IsFirstClosed(old(folds), line, i);
          return true;
        }
      }
      return false;
    }

    method CloseOne(line: nat) returns (changed: bool)
      requires Valid()
      modifies this`folds, this`generation, this`closed
      ensures Valid()
      ensures !changed ==> folds == old(folds) && forall k :: !IsDeepestOpen(folds, line, k)
      ensures changed ==> exists k :: IsDeepestOpen(old(folds), line, k) && folds == WithOpen(old(folds), k, false)
      ensures generation == if changed then old(generation) + 1 else old(generation)
    {
      var target: Option<nat> := None;
      var i := 0;
      var stop := false;
      while i < |folds| && !stop
        invariant 0 <= i <= |folds|
        invariant Valid() && folds == old(folds) && generation == old(generation)
        invariant target.None? ==> forall j :: 0 <= j < i && folds[j].Contains(line) ==> !folds[j].open
        invariant target.Some? ==> target.value < i && folds[target.value].Contains(line) && folds[target.value].open
        invariant target.Some? ==> forall j :: 0 <= j < target.value && folds[j].Contains(line) ==> folds[j].open
        invariant target.Some? ==> forall j :: target.value < j < i && folds[j].Contains(line) ==> !folds[j].open
        invariant !stop ==> forall j :: 0 <= j < i && folds[j].Contains(line) ==> folds[j].open
        invariant stop ==> i > 0 && folds[i - 1].Contains(line) && !folds[i - 1].open
        invariant stop ==> forall j :: 0 <= j < i - 1 && folds[j].Contains(line) ==> folds[j].open
        decreases |folds| - i
      {
        if folds[i].Contains(line) {
          if !folds[i].open {
            stop := true;
          } else {
            target := Some(i);
          }
        }
        i := i + 1;
      }
      if target.Some? {
        assert IsDeepestOpen(folds, line, target.value);
        SameRangesSameShape(folds, WithOpen(folds, target.value, false));
        folds := folds[target.value := folds[target.value].(open := false)];
        Touch();
        return true;
      }
      return false;
    }

    /** `za`: opens when the line is in a closed fold, else closes. */
    method ToggleOne(line: nat) returns (changed: bool)
      requires Valid()
      modifies this`folds, this`generation, this`closed
      ensures Valid()
      ensures !changed ==>
                folds == old(folds) && !ClosedAt(InForce(), line) && forall k :: !IsDeepestOpen(folds, line, k)
      ensures changed ==> exists k ::
                (if old(ClosedAt(InForce(), line)) then IsFirstClosed(old(folds), line, k)
                 else IsDeepestOpen(old(folds), line, k)) &&
                folds == WithOpen(old(folds), k, old(ClosedAt(InForce(), line)))
      ensures generation == if changed then old(generation) + 1 else old(generation)
    {
      var c := ClosedFoldAt(line);
      if c.Some? {
        changed := OpenOne(line);
      } else {
        changed := CloseOne(line);
      }
    }

    /** `zO` and `zC`: every fold containing the line. */
    method SetRecursive(line: nat, open: bool) returns (changed: bool)
      requires Valid()
      modifies this`folds, this`generation, this`closed
      ensures Valid()
      ensures folds == AllAround(old(folds), line, open) && changed == (folds != old(folds))
      ensures generation == if changed then old(generation) + 1 else old(generation)
    {
      SameRangesSameShape(folds, AllAround(folds, line, open));
      folds, changed := SetAround(folds, line, open);
      if changed {
        Touch();
      }
    }

    /** `zv`: with folding enabled, opens exactly the closed folds around the
        line, so that it can be seen; disabled, nothing needs opening. */
    method Reveal(line: nat) returns (changed: bool)
      requires Valid()
      modifies this`folds, this`generation, this`closed
      ensures Valid()
      ensures folds == if enabled then AllAround(old(folds), line, true) else old(folds)
      ensures changed == (folds != old(folds))
      ensures !HiddenBy(InForce(), line)
      ensures generation == old(generation) <==> folds == old(folds)
    {
      changed := false;
      ghost var before := folds;
      var hidden := IsLineHidden(line);
      var c := ClosedFoldAt(line);
      while hidden || c.Some?
        invariant Valid()
        invariant OpenedTowards(before, folds, line)
        invariant changed == (folds != before) && (changed ==> enabled)
        invariant generation >= old(generation) && (generation == old(generation) <==> folds == before)
        invariant c.Some? <==> ClosedAt(InForce(), line)
        invariant hidden == HiddenBy(InForce(), line)
        decreases ClosedAround(folds, line)
      {
        ghost var prior := folds;
        var found := OpenOne(line);
        if !found {
          NothingClosed(folds, line);
          assert false;
        }
        changed := true;
        OpenedOne(before, prior, folds, line);
        hidden := IsLineHidden(line);
        c := ClosedFoldAt(line);
      }
      if enabled {
        AllOpened(before, folds, line);
      }
    }

    // ----- foldlevel --------------------------------------------------------------------

    method DeepestNesting() returns (deepest: nat)
      ensures deepest == Deepest(Levels(folds))
    {
      var levels := NestingLevels(folds);
      deepest := Deepest(levels);
    }

    /** Without `foldlevel` set, no fold is too deep. */
    function LevelInForce(): (r: nat)
      reads this`folds, this`foldlevel
      ensures foldlevel.Some? ==> foldlevel == Some(r)
      ensures foldlevel.None? ==> forall k :: 0 <= k < |folds| ==> Level(folds, k) <= r
      ensures foldlevel.None? ==> r == 0 || exists k :: 0 <= k < |folds| && Level(folds, k) == r
    {
      if foldlevel.Some? then foldlevel.value else Deepest(Levels(folds))
    }

    method ApplyFoldlevel()
      requires Valid()
      modifies this`folds, this`generation, this`closed
      ensures Valid()
      ensures folds == Leveled(old(folds), old(LevelInForce())) && SameRanges(old(folds), folds)
      ensures generation == old(generation) + Changes(old(folds), folds)
    {
      var level := if foldlevel.Some? then foldlevel.value else 0;
      if foldlevel.None? {
        level := DeepestNesting();
      }
      assert level == LevelInForce();
      Relevel(level);
    }

    method Relevel(level: nat)
      requires Valid()
      modifies this`folds, this`generation, this`closed
      ensures Valid()
      ensures folds == Leveled(old(folds), level) && SameRanges(old(folds), folds)
      ensures generation == old(generation) + Changes(old(folds), folds)
    {
      LeveledKeepsShape(folds, level);
      var leveled := SetByLevel(folds, level);
      Replace(leveled);
    }

    method SetLevel(level: nat)
      requires Valid()
      modifies this`folds, this`foldlevel, this`generation, this`closed
      ensures Valid() && foldlevel == Some(level) && SameRanges(old(folds), folds)
      ensures folds == Leveled(old(folds), level)
      ensures generation == old(generation) + Changes(old(folds), folds)
    {
      foldlevel := Some(level);
      ApplyFoldlevel();
    }

    /** `zR`: nothing stays hidden. */
    method OpenAll()
      requires Valid()
      modifies this`folds, this`foldlevel, this`generation, this`closed
      ensures Valid() && foldlevel == Some(Deepest(Levels(old(folds)))) && SameRanges(old(folds), folds)
      ensures folds == Leveled(old(folds), Deepest(Levels(old(folds))))
      ensures forall line: nat :: !HiddenBy(folds, line)
      ensures generation == old(generation) + Changes(old(folds), folds)
    {
      var deepest := DeepestNesting();
      SetLevel(deepest);
      forall line: nat ensures !HiddenBy(folds, line) {
        AllOpenHidesNothing(old(folds), line);
      }
    }

    /** `zM`: the body of every fold is hidden. */
    method CloseAll()
      requires Valid()
      modifies this`folds, this`foldlevel, this`generation, this`closed
      ensures Valid() && foldlevel == Some(0) && SameRanges(old(folds), folds) && folds == Leveled(old(folds), 0)
      ensures forall line: nat :: HiddenBy(folds, line) <==> InSomeBody(old(folds), line)
      ensures generation == old(generation) + Changes(old(folds), folds)
    {
      SetLevel(0);
      AllBodiesHidden(old(folds));
    }

    method ReduceFolding(count: nat)
      requires Valid()
      modifies this`folds, this`foldlevel, this`generation, this`closed
      ensures Valid() && foldlevel == Some(old(RaisedLevel(count)))
      ensures folds == Leveled(old(folds), old(RaisedLevel(count)))
      ensures generation == old(generation) + Changes(old(folds), folds)
    {
      var deepest := DeepestNesting();
      var level := if foldlevel.Some? then foldlevel.value else deepest;
      var raised := Min(level + count, deepest);
      assert raised == RaisedLevel(count);
      SetLevel(raised);
    }

    /** `count` levels more than in force, at most the deepest nesting. */
    function RaisedLevel(count: nat): (r: nat)
      reads this`folds, this`foldlevel
      ensures LevelInForce() + count <= Deepest(Levels(folds)) ==> r == LevelInForce() + count
      ensures LevelInForce() + count > Deepest(Levels(folds)) ==> r == Deepest(Levels(folds))
    {
      Min(LevelInForce() + count, Deepest(Levels(folds)))
    }

    method FoldMore(count: nat)
      requires Valid()
      modifies this`folds, this`foldlevel, this`generation, this`closed
      ensures Valid()
      ensures foldlevel == if old(LevelInForce()) > 0 then Some(old(LoweredLevel(count))) else old(foldlevel)
      ensures folds == Leveled(old(folds), old(LoweredLevel(count)))
      ensures generation == old(generation) + Changes(old(folds), folds)
    {
      var level := CurrentLevel();
      if level > 0 {
        var lowered := if level >= count then level - count else 0;
        assert lowered == LoweredLevel(count);
        SetLevel(lowered);
      } else {
        assert LevelInForce() == LoweredLevel(count);
        ApplyFoldlevel();
      }
    }

    method CurrentLevel() returns (level: nat)
      requires Valid()
      ensures level == LevelInForce()
    {
      var deepest := DeepestNesting();
      level := if foldlevel.Some? then foldlevel.value else deepest;
    }

    /** `count` levels fewer than in force. */
    function LoweredLevel(count: nat): (r: nat)
      reads this`folds, this`foldlevel
      ensures LevelInForce() >= count ==> r + count == LevelInForce()
      ensures LevelInForce() < count ==> r == 0
    {
      if LevelInForce() >= count then LevelInForce() - count else 0
    }

    // ----- creating and deleting ------------------------------------------------------------

    method CreateFold(start: nat, end: nat)
      requires Valid()
      modifies this`folds, this`generation, this`closed
      ensures Valid() && folds == Created(old(folds), start, end)
      ensures old(Laminar(folds)) ==> Laminar(folds)
      ensures generation == if start < end then old(generation) + 1 else old(generation)
    {
      CreatedKeepsShape(folds, start, end);
      if start >= end {
        return;
      }
      var fold := Fold(start, end, false, Manual);
      folds := Filter(folds, (f: Fold) => !(f.start == start && f.end == end));
      folds := Filter(folds, (f: Fold) => !f.Overlaps(fold) || f.Encloses(fold) || fold.Encloses(f));
      folds := SortFolds(folds + [fold]);
      Touch();
    }

    /** `zd`: the innermost fold containing the line goes. */
    method DeleteFoldAt(line: nat)
      requires Valid()
      modifies this`folds, this`generation, this`closed
      ensures Valid()
      ensures (forall k :: 0 <= k < |old(folds)| ==> !old(folds)[k].Contains(line)) ==> folds == old(folds)
      ensures forall k :: 0 <= k < |old(folds)| && old(folds)[k].Contains(line) &&
                          (forall j :: k < j < |old(folds)| ==> !old(folds)[j].Contains(line))
                ==> folds == old(folds)[..k] + old(folds)[k + 1..]
      ensures old(Laminar(folds)) ==> Laminar(folds)
      ensures generation == if old(exists k :: 0 <= k < |folds| && folds[k].Contains(line)) then old(generation) + 1
                            else old(generation)
    {
      var i := |folds|;
      while i > 0 && !folds[i - 1].Contains(line)
        invariant 0 <= i <= |folds|
        invariant forall k :: i <= k < |folds| ==> !folds[k].Contains(line)
      {
        i := i - 1;
      }
      if i > 0 {
        SubsetKeepsShape(folds, folds[..i - 1] + folds[i..]);
        RemovalKeepsSorted(folds, i - 1);
        folds := folds[..i - 1] + folds[i..];
        Touch();
      }
    }

    /** `zD`: the outermost fold containing the line goes, with all it encloses. */
    method DeleteRecursive(line: nat)
      requires Valid()
      modifies this`folds, this`generation, this`closed
      ensures Valid()
      ensures (forall k :: 0 <= k < |old(folds)| ==> !old(folds)[k].Contains(line)) ==> folds == old(folds)
      ensures forall k :: 0 <= k < |old(folds)| && old(folds)[k].Contains(line) &&
                          (forall j :: 0 <= j < k ==> !old(folds)[j].Contains(line))
                ==> folds == WithoutEnclosed(old(folds), old(folds)[k])
      ensures old(Laminar(folds)) ==> Laminar(folds)
      ensures generation == if old(exists k :: 0 <= k < |folds| && folds[k].Contains(line)) then old(generation) + 1
                            else old(generation)
    {
      var i := 0;
      while i < |folds| && !folds[i].Contains(line)
        invariant 0 <= i <= |folds|
        invariant forall k :: 0 <= k < i ==> !folds[k].Contains(line)
      {
        i := i + 1;
      }
      if i < |folds| {
        var outer := folds[i];
        var kept := WithoutEnclosed(folds, outer);
        WithoutEnclosedKeepsSorted(folds, outer);
        SubsetKeepsShape(folds, kept);
        folds := kept;
        Touch();
      }
    }

    method DeleteAll()
      requires Valid()
      modifies this`folds, this`autoVersion, this`generation, this`closed
      ensures Valid() && folds == [] && autoVersion == None
      ensures generation == old(generation) + 1
    {
      folds := [];
      autoVersion := None;
      Touch();
    }

    // ----- automatic folds ---------------------------------------------------------------------

    method SetAutoFoldsFrom(ranges: seq<Range>, lineCount: nat, version: nat, from: Source)
      requires Valid()
      modifies this`folds, this`source, this`syncedLineCount, this`autoVersion, this`generation, this`closed
      ensures Valid() && source == from && syncedLineCount == lineCount && autoVersion == Some(version)
      ensures folds == AutoResult(old(folds), ranges, lineCount, foldlevel)
      ensures old(Laminar(folds)) ==> Laminar(folds)
      ensures generation == old(generation) + Changes(old(folds), folds)
    {
      source, syncedLineCount, autoVersion := from, lineCount, Some(version);
      Rebuild(ranges, lineCount);
    }

    /** The automatic folds recomputed, the manual ones kept. */
    method Rebuild(ranges: seq<Range>, lineCount: nat)
      requires Valid()
      modifies this`folds, this`generation, this`closed
      ensures Valid() && folds == AutoResult(old(folds), ranges, lineCount, foldlevel)
      ensures old(Laminar(folds)) ==> Laminar(folds)
      ensures generation == old(generation) + Changes(old(folds), folds)
    {
      var recomputed := Recomputed(folds, ranges, lineCount, foldlevel);
      Replace(recomputed);
    }

    /** Other folds take the place of the present ones; it counts as a change only if
        they differ. */
    method Replace(next: seq<Fold>)
      requires Valid() && WellFormed(next)
      modifies this`folds, this`generation, this`closed
      ensures Valid() && folds == next
      ensures generation == old(generation) + Changes(old(folds), folds)
    {
      var changed := folds != next;
      folds := next;
      if changed {
        Touch();
      }
    }

    // ----- line count changes ----------------------------------------------------------------------

    method AdjustForLineCount(newCount: nat, pivot: nat)
      requires Valid()
      modifies this`folds, this`syncedLineCount, this`generation, this`closed
      ensures Valid() && syncedLineCount == newCount
      ensures folds == Adjusted(old(folds), old(syncedLineCount), newCount, pivot)
      ensures old(Laminar(folds)) ==>
                (Laminar(folds) <==>
                 NoneCollide(old(folds), newCount - old(syncedLineCount), pivot, LastLine(newCount)))
      ensures old(Laminar(folds)) && newCount >= old(syncedLineCount) ==> Laminar(folds)
      ensures generation == if old(syncedLineCount) in {0, newCount} || old(folds) == [] then old(generation)
                            else old(generation) + 1
    {
      var oldCount := syncedLineCount;
      AdjustedKeepsOrder(folds, oldCount, newCount, pivot);
      if Laminar(folds) {
        AdjustedKeepsLaminar(folds, oldCount, newCount, pivot);
      }
      syncedLineCount := newCount;
      if oldCount == 0 || oldCount == newCount || folds == [] {
        return;
      }
      var moved := Move(folds, newCount - oldCount, pivot, LastLine(newCount));
      folds := SortFolds(moved);
      Touch();
    }

    /** Records the line count and moves nothing. */
    method NoteLineCount(lineCount: nat)
      requires Valid()
      modifies this`syncedLineCount
      ensures Valid() && syncedLineCount == lineCount
    {
      syncedLineCount := lineCount;
    }
  }

  method Move(folds: seq<Fold>, delta: int, pivot: nat, maxLine: nat) returns (moved: seq<Fold>)
    ensures moved == AdjustedAll(folds, delta, pivot, maxLine)
  {
    moved := [];
    for i := 0 to |folds|
      invariant moved == AdjustedAll(folds[..i], delta, pivot, maxLine)
    {
      assert folds[..i + 1][..i] == folds[..i];
      var f := AdjustedFold(folds[i], delta, pivot);
      f := f.(end := Min(f.end, maxLine));
      if f.start < f.end {
        moved := moved + [f];
      }
    }
    assert folds[..|folds|] == folds;
  }

  /** How many hidden ranges begin at or before a visible index. */
  method RangesFrom(hidden: seq<Range>, before: seq<nat>, index: nat) returns (low: nat)
    requires Separate(hidden) && IsBefore(hidden, before)
    ensures low <= |hidden|
    ensures forall k :: 0 <= k < low ==> HidesFrom(hidden, k) <= index
    ensures low < |hidden| ==> HidesFrom(hidden, low) > index
  {
    low := 0;
    var high := |hidden|;
    while low < high
      invariant 0 <= low <= high <= |hidden|
      invariant forall k :: 0 <= k < low ==> HidesFrom(hidden, k) <= index
      invariant high < |hidden| ==> HidesFrom(hidden, high) > index
    {
      var mid := (low + high) / 2;
      if hidden[mid].lo - before[mid] <= index {
        forall k | low <= k < mid ensures HidesFrom(hidden, k) < HidesFrom(hidden, mid) {
          HidesFromAscends(hidden, k, mid);
        }
        low := mid + 1;
      } else {
        high := mid;
      }
    }
  }

  method ShiftedBy(hidden: seq<Range>, before: seq<nat>, index: nat, ghost folds: seq<Fold>) returns (line: nat)
    requires HiddenRanges(folds, hidden) && IsBefore(hidden, before)
    ensures IsVisibleAt(folds, line, index)
  {
    var low := RangesFrom(hidden, before, index);
    ShiftLandsOnVisible(folds, hidden, index, low);
    if low > 0 {
      SizeOfNext(hidden, low - 1);
      line := index + before[low - 1] + (hidden[low - 1].hi - hidden[low - 1].lo + 1);
    } else {
      line := index;
    }
  }

  lemma OnlyOneAt(folds: seq<Fold>, line: nat, index: nat)
    requires IsVisibleAt(folds, line, index)
    ensures forall other: nat :: IsVisibleAt(folds, other, index) ==> other == line
  {
    forall other: nat | IsVisibleAt(folds, other, index) ensures other == line {
      VisibleIndexInjective(folds, other, line, index);
    }
  }

  /** `current` is `count` visible lines below `line`, or the last visible line
      at or above `maxLine` if that comes first. */
  predicate SteppedDown(folds: seq<Fold>, line: nat, count: nat, maxLine: nat, current: nat) {
    current <= maxLine && VisibleCount(folds, maxLine + 1) >= 1 &&
    IsVisibleAt(folds, current, Min(VisibleCount(folds, line) + count, VisibleCount(folds, maxLine + 1) - 1))
  }

  /** `after` is the first visible line below `current`. */
  predicate NextShown(folds: seq<Fold>, current: nat, after: nat) {
    after > current && IsVisibleAt(folds, after, VisibleCount(folds, current) + 1) &&
    forall k :: current < k < after ==> HiddenBy(folds, k)
  }

  /** Past the fold a line stands in, if any. */
  function Past(c: Option<Range>, line: nat): nat {
    if c.Some? then c.value.hi + 1 else line + 1
  }

  lemma NextIsShown(folds: seq<Fold>, outer: seq<Range>, line: nat)
    requires OuterRanges(folds, outer) && !HiddenBy(folds, line)
    ensures NextShown(folds, line, Past(OuterAt(outer, line), line))
  {
    LineBelow(folds, outer, line);
  }

  /** Where a walk of `n` steps down from `line` must stop, being at `current`. */
  lemma StoppedAt(folds: seq<Fold>, line: nat, current: nat, after: nat, maxLine: nat, n: nat, count: nat)
    requires IsVisibleAt(folds, current, VisibleCount(folds, line) + n) && current <= maxLine < after && n < count
    requires forall k :: current < k < after ==> HiddenBy(folds, k)
    ensures SteppedDown(folds, line, count, maxLine, current)
  {
    LastVisible(folds, current, after, maxLine);
  }

  lemma ReachedCount(folds: seq<Fold>, line: nat, current: nat, maxLine: nat, count: nat)
    requires IsVisibleAt(folds, current, VisibleCount(folds, line) + count) && current <= maxLine
    ensures SteppedDown(folds, line, count, maxLine, current)
  {
    VisibleCountMonotone(folds, current, maxLine + 1);
  }

  predicate InSomeBody(folds: seq<Fold>, line: nat) {
    exists k :: 0 <= k < |folds| && folds[k].start < line <= folds[k].end
  }

  lemma AllBodiesHidden(folds: seq<Fold>)
    ensures forall line: nat :: HiddenBy(Leveled(folds, 0), line) <==> InSomeBody(folds, line)
  {
    forall line: nat ensures HiddenBy(Leveled(folds, 0), line) <==> InSomeBody(folds, line) {
      AllClosedHidesBodies(folds, line);
    }
  }

  lemma LeveledKeepsShape(folds: seq<Fold>, level: nat)
    ensures SameRanges(folds, Leveled(folds, level))
    ensures WellFormed(folds) ==> WellFormed(Leveled(folds, level))
  {
    SameRangesSameShape(folds, Leveled(folds, level));
  }

  method NestingLevels(folds: seq<Fold>) returns (levels: seq<nat>)
    ensures levels == Levels(folds)
  {
    var ends: seq<nat> := [];
    levels := [];
    for i := 0 to |folds|
      invariant |levels| == i && ends == Ends(folds[..i])
      invariant forall k :: 0 <= k < i ==> levels[k] == Level(folds, k)
    {
      assert folds[..i + 1][..i] == folds[..i];
      while ends != [] && ends[|ends| - 1] < folds[i].start
        invariant PopBelow(ends, folds[i].start) == PopBelow(Ends(folds[..i]), folds[i].start)
        decreases |ends|
      {
        ends := ends[..|ends| - 1];
      }
      ends := ends + [folds[i].end];
      levels := levels + [|ends|];
    }
  }

  method SetByLevel(folds: seq<Fold>, level: nat) returns (r: seq<Fold>)
    ensures r == Leveled(folds, level)
  {
    var levels := NestingLevels(folds);
    r := folds;
    for i := 0 to |folds|
      invariant |r| == |folds|
      invariant forall k :: 0 <= k < i ==> r[k] == folds[k].(open := levels[k] <= level)
      invariant forall k :: i <= k < |folds| ==> r[k] == folds[k]
    {
      r := r[i := r[i].(open := levels[i] <= level)];
    }
  }

  /** Every fold containing `line` set to `open`, and whether one was not. */
  method SetAround(folds: seq<Fold>, line: nat, open: bool) returns (r: seq<Fold>, changed: bool)
    ensures r == AllAround(folds, line, open) && changed == (r != folds)
  {
    r, changed := folds, false;
    for i := 0 to |folds|
      invariant |r| == |folds| && (changed ==> r != folds) && (!changed ==> r == folds)
      invariant forall k :: 0 <= k < i ==> r[k] == AllAround(folds, line, open)[k]
      invariant forall k :: i <= k < |folds| ==> r[k] == folds[k]
    {
      if r[i].Contains(line) && r[i].open != open {
        r := r[i := r[i].(open := open)];
        changed := true;
        assert r[i] != folds[i];
      }
    }
  }

  function FreshOne(f: Fold, starts: set<nat>, nesting: nat, level: nat): Fold {
    if f.origin == Auto && f.start in starts then f.(open := nesting <= level) else f
  }

  /** The first `i` folds have been given their state, the others not yet. */
  predicate FreshTo(folds: seq<Fold>, starts: set<nat>, levels: seq<nat>, level: nat, i: nat, r: seq<Fold>) {
    |r| == |folds| == |levels| && i <= |folds| && r[i..] == folds[i..] &&
    forall k :: 0 <= k < i ==> r[k] == FreshOne(folds[k], starts, levels[k], level)
  }

  lemma FreshNext(folds: seq<Fold>, starts: set<nat>, levels: seq<nat>, level: nat, i: nat, r: seq<Fold>)
    requires i < |folds| && FreshTo(folds, starts, levels, level, i, r)
    ensures r[i] == folds[i]
    ensures FreshTo(folds, starts, levels, level, i + 1, r[i := FreshOne(r[i], starts, levels[i], level)])
  {
    var next := r[i := FreshOne(r[i], starts, levels[i], level)];
    assert r[i] == r[i..][0] == folds[i..][0] == folds[i];
    assert next[i + 1..] == r[i..][1..] && folds[i + 1..] == folds[i..][1..];
  }

  lemma FreshAll(folds: seq<Fold>, starts: set<nat>, levels: seq<nat>, level: nat, r: seq<Fold>)
    requires levels == Levels(folds) && FreshTo(folds, starts, levels, level, |folds|, r)
    ensures r == FreshLeveled(folds, starts, level)
  {
  }

  method LevelFresh(folds: seq<Fold>, starts: set<nat>, level: nat) returns (r: seq<Fold>)
    ensures r == FreshLeveled(folds, starts, level)
  {
    var levels := NestingLevels(folds);
    r := folds;
    for i := 0 to |folds|
      invariant FreshTo(folds, starts, levels, level, i, r)
    {
      FreshNext(folds, starts, levels, level, i, r);
      if r[i].origin == Auto && r[i].start in starts {
        r := r[i := r[i].(open := levels[i] <= level)];
      }
    }
    FreshAll(folds, starts, levels, level, r);
  }

  lemma {:induction false} NothingHidden(n: nat)
    ensures HiddenCount([], n) == 0 && !HiddenBy([], n)
  {
    if n > 0 {
      NothingHidden(n - 1);
    }
  }

  lemma RemovalKeepsSorted(folds: seq<Fold>, k: nat)
    requires WellFormed(folds) && k < |folds|
    ensures WellFormed(folds[..k] + folds[k + 1..])
  {
    var r := folds[..k] + folds[k + 1..];
    forall i, j | 0 <= i < j < |r| ensures Before(r[i], r[j]) {
      assert Before(folds[if i < k then i else i + 1], folds[if j < k then j else j + 1]);
    }
  }

  /** Closed folds containing `line`. */
  function ClosedAround(folds: seq<Fold>, line: nat): nat {
    if folds == [] then 0
    else ClosedAround(folds[..|folds| - 1], line) +
         if folds[|folds| - 1].Contains(line) && !folds[|folds| - 1].open then 1 else 0
  }

  lemma {:induction false} OpeningCounts(folds: seq<Fold>, line: nat, k: nat)
    requires k < |folds| && folds[k].Contains(line) && !folds[k].open
    ensures ClosedAround(WithOpen(folds, k, true), line) == ClosedAround(folds, line) - 1
  {
    var r := WithOpen(folds, k, true);
    if k == |folds| - 1 {
      assert r[..k] == folds[..k];
    } else {
      OpeningCounts(folds[..|folds| - 1], line, k);
      assert r[..|folds| - 1] == WithOpen(folds[..|folds| - 1], k, true);
    }
  }

  /** `now` is `before` with some folds around `line` opened. */
  predicate OpenedTowards(before: seq<Fold>, now: seq<Fold>, line: nat) {
    |before| == |now| &&
    forall k :: 0 <= k < |now| ==>
      now[k] == before[k] || (before[k].Contains(line) && now[k] == before[k].(open := true))
  }

  method Recomputed(folds: seq<Fold>, ranges: seq<Range>, lineCount: nat, foldlevel: Option<nat>) returns (r: seq<Fold>)
    requires WellFormed(folds)
    ensures r == AutoResult(folds, ranges, lineCount, foldlevel)
    ensures WellFormed(r) && (Laminar(folds) ==> Laminar(r))
  {
    AutoResultKeepsShape(folds, ranges, lineCount, foldlevel);
    var manual, auto := Manuals(folds), Automatic(folds);
    var incoming := Incoming(ranges, lineCount);
    IncomingAreCandidates(ranges, lineCount);
    var accepted, starts := Sweep(incoming, manual, auto);
    r := SortFolds(manual + accepted);
    if foldlevel.Some? {
      r := LevelFresh(r, starts, foldlevel.value);
    }
  }

  method PopEnded(ends0: seq<nat>, start: nat) returns (ends: seq<nat>)
    ensures ends == PopBelow(ends0, start)
  {
    ends := ends0;
    while ends != [] && ends[|ends| - 1] < start
      invariant PopBelow(ends, start) == PopBelow(ends0, start)
      decreases |ends|
    {
      ends := ends[..|ends| - 1];
    }
  }

  /** The stack after the first `i` candidates. */
  predicate Swept(ends: seq<nat>, incoming: seq<Fold>, i: nat, manual: seq<Fold>) {
    i <= |incoming| &&
    StackOf(ends, Greedy(incoming[..i], manual), if i == 0 then 0 else incoming[i - 1].start)
  }

  /** Whether the next candidate is accepted, and the stack after it. */
  method Admit(ends0: seq<nat>, incoming: seq<Fold>, i: nat, manual: seq<Fold>) returns (admitted: bool, ends: seq<nat>)
    requires Candidates(incoming) && i < |incoming| && Swept(ends0, incoming, i, manual)
    ensures Swept(ends, incoming, i + 1, manual)
    ensures Greedy(incoming[..i + 1], manual)
            == if admitted then Greedy(incoming[..i], manual) + [incoming[i]] else Greedy(incoming[..i], manual)
  {
    var c := incoming[i];
    ghost var greedy := Greedy(incoming[..i], manual);
    assert incoming[..i + 1][..i] == incoming[..i];
    StackAfterPop(ends0, greedy, if i == 0 then 0 else incoming[i - 1].start, c.start);
    ends := PopEnded(ends0, c.start);
    PoppedTopTells(ends, incoming, i, manual);
    var crossesAccepted := ends != [] && ends[|ends| - 1] < c.end;
    var crossesManual := CrossesAny(manual, c);
    admitted := !(crossesAccepted || crossesManual);
    if admitted {
      StackAfterPush(ends, greedy, c);
      ends := ends + [c.end];
    }
  }

  /** A candidate accepted with its remembered state, or as a fresh one. */
  method Accept(byRange: map<Range, bool>, byStart: map<nat, bool>, c: Fold, accepted0: seq<Fold>, starts0: set<nat>,
                ghost auto: seq<Fold>, ghost greedy: seq<Fold>) returns (accepted: seq<Fold>, starts: set<nat>)
    requires byRange == ByRange(auto) && byStart == ByStart(auto)
    requires accepted0 == AllWithState(auto, greedy) && starts0 == FreshStarts(auto, greedy)
    ensures accepted == AllWithState(auto, greedy + [c]) && starts == FreshStarts(auto, greedy + [c])
  {
    var open := RememberedState(byRange, byStart, c);
    accepted := accepted0 + [c.(open := open.None? || open.value)];
    starts := if open.None? then starts0 + {c.start} else starts0;
    StatesOfNext(auto, greedy, c);
  }

  /** The one-stack sweep over sorted candidates, as the quadratic filter. */
  method Sweep(incoming: seq<Fold>, manual: seq<Fold>, auto: seq<Fold>) returns (accepted: seq<Fold>, starts: set<nat>)
    requires Candidates(incoming)
    ensures accepted == AllWithState(auto, Greedy(incoming, manual))
    ensures starts == FreshStarts(auto, Greedy(incoming, manual))
  {
    var byRange, byStart := StateOf(auto);
    accepted, starts := [], {};
    var ends: seq<nat> := [];
    for i := 0 to |incoming|
      invariant accepted == AllWithState(auto, Greedy(incoming[..i], manual))
      invariant starts == FreshStarts(auto, Greedy(incoming[..i], manual))
      invariant Swept(ends, incoming, i, manual)
    {
      ghost var greedy := Greedy(incoming[..i], manual);
      var admitted: bool;
      admitted, ends := Admit(ends, incoming, i, manual);
      if admitted {
        accepted, starts := Accept(byRange, byStart, incoming[i], accepted, starts, auto, greedy);
      }
    }
    assert incoming[..|incoming|] == incoming;
  }

  function RememberedState(byRange: map<Range, bool>, byStart: map<nat, bool>, c: Fold): Option<bool> {
    if Range(c.start, c.end) in byRange then Some(byRange[Range(c.start, c.end)])
    else if c.start in byStart then Some(byStart[c.start])
    else None
  }

  lemma PoppedTopTells(ends: seq<nat>, incoming: seq<Fold>, i: nat, manual: seq<Fold>)
    requires Candidates(incoming) && i < |incoming|
    requires StackOf(ends, Greedy(incoming[..i], manual), incoming[i].start)
    requires forall e :: e in ends ==> e >= incoming[i].start
    ensures (ends != [] && ends[|ends| - 1] < incoming[i].end)
            <==> CrossesAny(Greedy(incoming[..i], manual), incoming[i])
  {
    GreedyComesFrom(incoming[..i], manual);
    EarlierCandidates(incoming, i, Greedy(incoming[..i], manual));
    TopTellsCrossing(ends, Greedy(incoming[..i], manual), incoming[i]);
  }

  lemma EarlierCandidates(incoming: seq<Fold>, i: nat, greedy: seq<Fold>)
    requires Candidates(incoming) && i < |incoming|
    requires forall f :: f in greedy ==> f in incoming[..i]
    ensures forall k :: 0 <= k < |greedy| ==>
              greedy[k].start < incoming[i].start ||
              (greedy[k].start == incoming[i].start && greedy[k].end > incoming[i].end)
  {
    forall k | 0 <= k < |greedy|
      ensures greedy[k].start < incoming[i].start ||
              (greedy[k].start == incoming[i].start && greedy[k].end > incoming[i].end)
    {
      assert greedy[k] in greedy;
      var j :| 0 <= j < i && incoming[j] == greedy[k];
    }
  }

  lemma StatesOfNext(auto: seq<Fold>, accepted: seq<Fold>, c: Fold)
    ensures AllWithState(auto, accepted + [c]) == AllWithState(auto, accepted) + [WithState(auto, c)]
    ensures FreshStarts(auto, accepted + [c])
            == FreshStarts(auto, accepted) + if Remembered(auto, c).None? then {c.start} else {}
  {
    var all := accepted + [c];
    forall s | s in FreshStarts(auto, accepted) ensures s in FreshStarts(auto, all) {
      var i :| 0 <= i < |accepted| && Remembered(auto, accepted[i]).None? && accepted[i].start == s;
      assert all[i] == accepted[i];
    }
    if Remembered(auto, c).None? {
      assert all[|accepted|] == c;
    }
  }

  /** The state of the previous automatic folds, by range and by header line. */
  method StateOf(auto: seq<Fold>) returns (byRange: map<Range, bool>, byStart: map<nat, bool>)
    ensures byRange == ByRange(auto) && byStart == ByStart(auto)
  {
    byRange, byStart := map[], map[];
    for i := 0 to |auto|
      invariant byRange == ByRange(auto[..i]) && byStart == ByStart(auto[..i])
    {
      assert auto[..i + 1][..i] == auto[..i];
      byRange := byRange[Range(auto[i].start, auto[i].end) := auto[i].open];
      if auto[i].start !in byStart {
        byStart := byStart[auto[i].start := auto[i].open];
      }
    }
    assert auto[..|auto|] == auto;
  }

  lemma NothingClosed(folds: seq<Fold>, line: nat)
    requires forall k :: 0 <= k < |folds| && folds[k].Contains(line) ==> folds[k].open
    ensures !ClosedAt(folds, line)
  {
  }

  lemma OpenedOne(before: seq<Fold>, prior: seq<Fold>, now: seq<Fold>, line: nat)
    requires OpenedTowards(before, prior, line)
    requires exists k: nat :: IsFirstClosed(prior, line, k) && now == WithOpen(prior, k, true)
    ensures OpenedTowards(before, now, line) && now != before
    ensures ClosedAround(now, line) < ClosedAround(prior, line)
  {
    var k: nat :| IsFirstClosed(prior, line, k) && now == WithOpen(prior, k, true);
    OpeningCounts(prior, line, k);
    assert prior[k] == before[k];
    assert now[k] != before[k];
  }

  lemma AllOpened(before: seq<Fold>, now: seq<Fold>, line: nat)
    requires OpenedTowards(before, now, line) && !ClosedAt(now, line)
    ensures now == AllAround(before, line, true)
  {
    var all := AllAround(before, line, true);
    forall k | 0 <= k < |now| ensures now[k] == all[k] {
      assert now[k].Contains(line) ==> now[k].open;
    }
  }
}
