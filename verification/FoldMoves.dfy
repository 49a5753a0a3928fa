/** Folds hold on to their lines when lines are added or removed below the cursor
    (ovim-core/src/fold.rs). */
module FoldMoves {
  import opened Basics
  import opened Folds
  import opened FoldOrder
  import opened FoldUpdates

  /** Where a line is after `delta` lines were added below `pivot`, or removed there. */
  function Moved(line: nat, delta: int, pivot: nat): int {
    if line <= pivot then line else line + delta
  }

  /** The line is not one of the removed ones. */
  predicate Stays(line: nat, delta: int, pivot: nat) {
    line <= pivot || line + delta > pivot
  }

  /** `g` is `f` on the lines that were moved, as far as the last line: it holds a line
      exactly when `f` held it, and new lines exactly when `f` held the pivot. */
  ghost predicate HoldsOn(f: Fold, g: Fold, delta: int, pivot: nat, lineCount: nat) {
    g == f.(start := g.start, end := g.end) && g.start == Moved(f.start, delta, pivot) &&
    HoldsOldLines(f, g, delta, pivot, lineCount) && HoldsNewLines(f, g, delta, pivot, lineCount)
  }

  ghost predicate HoldsOldLines(f: Fold, g: Fold, delta: int, pivot: nat, lineCount: nat) {
    forall line: nat :: Stays(line, delta, pivot) && Moved(line, delta, pivot) < lineCount ==>
      (f.Contains(line) <==> g.Contains(Moved(line, delta, pivot)))
  }

  ghost predicate HoldsNewLines(f: Fold, g: Fold, delta: int, pivot: nat, lineCount: nat) {
    forall line: nat :: pivot < line <= pivot + delta && line < lineCount ==> (f.Contains(pivot) <==> g.Contains(line))
  }

  lemma AdjustedHoldsOn(f: Fold, delta: int, pivot: nat, lineCount: nat)
    requires f.start < f.end && KeepsBoundaries(f, delta, pivot)
    ensures HoldsOn(f, Cut(AdjustedFold(f, delta, pivot), LastLine(lineCount)), delta, pivot, lineCount)
  {
  }

  /** Some line of its body is left. */
  ghost predicate BodyLeft(f: Fold, delta: int, pivot: nat, lineCount: nat) {
    exists line: nat :: f.start < line <= f.end && Stays(line, delta, pivot) && Moved(line, delta, pivot) < lineCount
  }

  lemma LeftIsProper(f: Fold, g: Fold, delta: int, pivot: nat, lineCount: nat)
    requires BodyLeft(f, delta, pivot, lineCount) && KeepsBoundaries(f, delta, pivot)
    requires HoldsOn(f, g, delta, pivot, lineCount)
    ensures g.start < g.end
  {
    var line: nat :| f.start < line <= f.end && Stays(line, delta, pivot) && Moved(line, delta, pivot) < lineCount;
    assert f.Contains(line);
    assert g.Contains(Moved(line, delta, pivot));
  }

  ghost predicate HeldInResult(f: Fold, r: seq<Fold>, delta: int, pivot: nat, lineCount: nat) {
    exists k :: 0 <= k < |r| && HoldsOn(f, r[k], delta, pivot, lineCount)
  }

  lemma {:induction false} AdjustedHasEach(folds: seq<Fold>, delta: int, pivot: nat, maxLine: nat, i: nat)
    requires i < |folds|
    ensures var g := Cut(AdjustedFold(folds[i], delta, pivot), maxLine);
            g.start < g.end ==> g in AdjustedAll(folds, delta, pivot, maxLine)
  {
    if i < |folds| - 1 {
      AdjustedHasEach(folds[..|folds| - 1], delta, pivot, maxLine, i);
    }
  }

  lemma AdjustedIsThere(folds: seq<Fold>, oldCount: nat, newCount: nat, pivot: nat, f: Fold, g: Fold)
    requires f in folds && oldCount > 0 && oldCount != newCount && g.start < g.end
    requires g == Cut(AdjustedFold(f, newCount - oldCount, pivot), LastLine(newCount))
    ensures g in Adjusted(folds, oldCount, newCount, pivot)
  {
    var i :| 0 <= i < |folds| && folds[i] == f;
    AdjustedHasEach(folds, newCount - oldCount, pivot, LastLine(newCount), i);
  }

  lemma HeldByMember(f: Fold, g: Fold, r: seq<Fold>, delta: int, pivot: nat, lineCount: nat)
    requires g in r && HoldsOn(f, g, delta, pivot, lineCount)
    ensures HeldInResult(f, r, delta, pivot, lineCount)
  {
    var k :| 0 <= k < |r| && r[k] == g;
  }

  lemma SameHoldsOn(f: Fold, pivot: nat, lineCount: nat)
    ensures HoldsOn(f, f, 0, pivot, lineCount)
  {
  }

  lemma MovedHoldsOn(folds: seq<Fold>, oldCount: nat, newCount: nat, pivot: nat, f: Fold, g: Fold)
    requires f in folds && f.start < f.end && oldCount > 0 && oldCount != newCount
    requires KeepsBoundaries(f, newCount - oldCount, pivot)
    requires BodyLeft(f, newCount - oldCount, pivot, newCount)
    requires g == Cut(AdjustedFold(f, newCount - oldCount, pivot), LastLine(newCount))
    ensures g in Adjusted(folds, oldCount, newCount, pivot)
    ensures HoldsOn(f, g, newCount - oldCount, pivot, newCount)
  {
    AdjustedHoldsOn(f, newCount - oldCount, pivot, newCount);
    LeftIsProper(f, g, newCount - oldCount, pivot, newCount);
    AdjustedIsThere(folds, oldCount, newCount, pivot, f, g);
  }

  /** A fold with no boundary among the removed lines and some of its body left is
      still there: closed or open as before, over the very lines it had. */
  lemma FoldsHoldOn(folds: seq<Fold>, oldCount: nat, newCount: nat, pivot: nat, f: Fold)
    requires f in folds && f.start < f.end && oldCount > 0
    requires KeepsBoundaries(f, newCount - oldCount, pivot)
    requires BodyLeft(f, newCount - oldCount, pivot, newCount)
    ensures HeldInResult(f, Adjusted(folds, oldCount, newCount, pivot), newCount - oldCount, pivot, newCount)
  {
    var r := Adjusted(folds, oldCount, newCount, pivot);
    if newCount == oldCount {
      SameHoldsOn(f, pivot, newCount);
      HeldByMember(f, f, r, 0, pivot, newCount);
    } else {
      var g := Cut(AdjustedFold(f, newCount - oldCount, pivot), LastLine(newCount));
      MovedHoldsOn(folds, oldCount, newCount, pivot, f, g);
      HeldByMember(f, g, r, newCount - oldCount, pivot, newCount);
    }
  }

  lemma {:induction false} AllCut(folds: seq<Fold>, delta: int, pivot: nat, maxLine: nat)
    ensures forall g :: g in AdjustedAll(folds, delta, pivot, maxLine) ==> g.start < g.end <= maxLine
  {
    if folds != [] {
      AllCut(folds[..|folds| - 1], delta, pivot, maxLine);
    }
  }

  /** No fold that was moved reaches past the last line. */
  lemma FoldsStayInBuffer(folds: seq<Fold>, oldCount: nat, newCount: nat, pivot: nat, g: Fold)
    requires oldCount > 0 && oldCount != newCount && g in Adjusted(folds, oldCount, newCount, pivot)
    ensures g.end < newCount
  {
    AllCut(folds, newCount - oldCount, pivot, LastLine(newCount));
  }
}
