/** Every run of fold commands: what each of them does to the list of folds, and
    what all of them keep (ovim-core/src/fold.rs). */
module FoldRuns {
  import opened Basics
  import opened Folds
  import opened VisibleLines
  import opened FoldOrder
  import opened FoldLevels
  import opened FoldUpdates
  import opened FoldManagers

  datatype Step =
    | SetOpen(k: nat, open: bool)                         // zo, zc, za
    | SetAround(line: nat, open: bool)                    // zO, zC, zA, zv
    | ApplyLevel(level: nat)                              // zR, zM, zr, zm, zX
    | Create(start: nat, end: nat)                        // zf
    | Delete(k: nat)                                      // zd
    | DeleteEnclosed(k: nat)                              // zD
    | Clear                                               // zE
    | Recompute(ranges: seq<Range>, lineCount: nat, foldlevel: Option<nat>)
    | Follow(lineCount: nat, pivot: nat)
    | Note(lineCount: nat)

  datatype State = State(folds: seq<Fold>, lineCount: nat)

  function After(s: State, step: Step): State {
    match step
    case SetOpen(k, open) => if k < |s.folds| then s.(folds := WithOpen(s.folds, k, open)) else s
    case SetAround(line, open) => s.(folds := AllAround(s.folds, line, open))
    case ApplyLevel(level) => s.(folds := Leveled(s.folds, level))
    case Create(start, end) => s.(folds := Created(s.folds, start, end))
    case Delete(k) => if k < |s.folds| then s.(folds := s.folds[..k] + s.folds[k + 1..]) else s
    case DeleteEnclosed(k) =>
      if k < |s.folds| then s.(folds := WithoutEnclosed(s.folds, s.folds[k])) else s
    case Clear => s.(folds := [])
    case Recompute(ranges, lineCount, foldlevel) => State(AutoResult(s.folds, ranges, lineCount, foldlevel), lineCount)
    case Follow(lineCount, pivot) => State(Adjusted(s.folds, s.lineCount, lineCount, pivot), lineCount)
    case Note(lineCount) => s.(lineCount := lineCount)
  }

  function Run(steps: seq<Step>): State {
    if steps == [] then State([], 0) else After(Run(steps[..|steps| - 1]), steps[|steps| - 1])
  }

  /** The step follows no removal of lines that makes folds collide. */
  predicate Gentle(s: State, step: Step) {
    match step
    case Follow(lineCount, pivot) => NoneCollide(s.folds, lineCount - s.lineCount, pivot, LastLine(lineCount))
    case _ => true
  }

  predicate NoCollisions(steps: seq<Step>) {
    steps == [] ||
    (NoCollisions(steps[..|steps| - 1]) && Gentle(Run(steps[..|steps| - 1]), steps[|steps| - 1]))
  }

  /** The step does not follow a removal of lines. */
  predicate Grows(s: State, step: Step) {
    step.Follow? ==> step.lineCount >= s.lineCount
  }

  predicate NoLinesRemoved(steps: seq<Step>) {
    steps == [] ||
    (NoLinesRemoved(steps[..|steps| - 1]) && Grows(Run(steps[..|steps| - 1]), steps[|steps| - 1]))
  }

  lemma {:induction false} GrowingRunsAreGentle(steps: seq<Step>)
    requires NoLinesRemoved(steps)
    ensures NoCollisions(steps)
  {
    if steps != [] {
      GrowingRunsAreGentle(steps[..|steps| - 1]);
    }
  }

  lemma {:induction false} FollowStaysSorted(s: State, step: Step)
    requires WellFormed(s.folds) && step.Follow?
    ensures WellFormed(After(s, step).folds)
  {
    AdjustedKeepsOrder(s.folds, s.lineCount, step.lineCount, step.pivot);
  }

  lemma {:induction false} AdjustedNestsExactly(s: State, lineCount: nat, pivot: nat, folds: seq<Fold>)
    requires WellFormed(s.folds) && Laminar(s.folds) && folds == Adjusted(s.folds, s.lineCount, lineCount, pivot)
    ensures Laminar(folds) <==> NoneCollide(s.folds, lineCount - s.lineCount, pivot, LastLine(lineCount))
  {
    AdjustedKeepsLaminar(s.folds, s.lineCount, lineCount, pivot);
  }

  lemma FollowAdjusts(s: State, lineCount: nat, pivot: nat)
    ensures After(s, Follow(lineCount, pivot)).folds == Adjusted(s.folds, s.lineCount, lineCount, pivot)
    ensures After(s, Follow(lineCount, pivot)).lineCount == lineCount
  {
  }

  lemma {:induction false} DeleteKeepsOrder(folds: seq<Fold>, k: nat)
    requires WellFormed(folds) && k < |folds|
    ensures var after := folds[..k] + folds[k + 1..];
            WellFormed(after) && (Laminar(folds) ==> Laminar(after))
  {
    RemovalKeepsSorted(folds, k);
    SubsetKeepsShape(folds, folds[..k] + folds[k + 1..]);
  }

  lemma {:induction false} FollowKeepsOrder(s: State, lineCount: nat, pivot: nat, folds: seq<Fold>)
    requires WellFormed(s.folds) && folds == After(s, Follow(lineCount, pivot)).folds
    ensures WellFormed(folds) && (Laminar(s.folds) ==> (Laminar(folds) <==> Gentle(s, Follow(lineCount, pivot))))
  {
    FollowStaysSorted(s, Follow(lineCount, pivot));
    FollowAdjusts(s, lineCount, pivot);
    if Laminar(s.folds) {
      AdjustedNestsExactly(s, lineCount, pivot, folds);
      GentleIs(s, lineCount, pivot);
    }
  }

  lemma GentleIs(s: State, lineCount: nat, pivot: nat)
    ensures Gentle(s, Follow(lineCount, pivot))
            <==> NoneCollide(s.folds, lineCount - s.lineCount, pivot, LastLine(lineCount))
  {
  }

  lemma {:induction false} StepKeepsOrder(s: State, step: Step)
    requires WellFormed(s.folds)
    ensures WellFormed(After(s, step).folds)
    ensures Laminar(s.folds) ==> (Laminar(After(s, step).folds) <==> Gentle(s, step))
  {
    if step.Follow? {
      FollowKeepsOrder(s, step.lineCount, step.pivot, After(s, step).folds);
    } else {
      OtherStepKeepsOrder(s, step);
    }
  }

  lemma {:induction false} OtherStepKeepsOrder(s: State, step: Step)
    requires WellFormed(s.folds) && !step.Follow?
    ensures WellFormed(After(s, step).folds) && (Laminar(s.folds) ==> Laminar(After(s, step).folds))
  {
    if step.SetOpen? || step.SetAround? || step.ApplyLevel? {
      OpeningKeepsOrder(s, step);
    } else if step.Delete? || step.DeleteEnclosed? {
      DeletingKeepsOrder(s, step);
    } else if step.Create? {
      CreatedKeepsShape(s.folds, step.start, step.end);
    } else if step.Recompute? {
      AutoResultKeepsShape(s.folds, step.ranges, step.lineCount, step.foldlevel);
    }
  }

  lemma {:induction false} OpeningKeepsOrder(s: State, step: Step)
    requires WellFormed(s.folds) && (step.SetOpen? || step.SetAround? || step.ApplyLevel?)
    ensures WellFormed(After(s, step).folds) && (Laminar(s.folds) ==> Laminar(After(s, step).folds))
  {
    if !(step.SetOpen? && step.k >= |s.folds|) {
      SameRangesSameShape(s.folds, After(s, step).folds);
    }
  }

  lemma {:induction false} DeletingKeepsOrder(s: State, step: Step)
    requires WellFormed(s.folds) && (step.Delete? || step.DeleteEnclosed?)
    ensures WellFormed(After(s, step).folds) && (Laminar(s.folds) ==> Laminar(After(s, step).folds))
  {
    if step.Delete? && step.k < |s.folds| {
      DeleteKeepsOrder(s.folds, step.k);
    } else if step.DeleteEnclosed? && step.k < |s.folds| {
      WithoutEnclosedKeepsSorted(s.folds, s.folds[step.k]);
      SubsetKeepsShape(s.folds, After(s, step).folds);
    }
  }

  /** Every reachable list is sorted and free of empty folds; as long as no removal of
      lines makes folds collide it is also nested or disjoint throughout. */
  lemma {:induction false} RunsKeepOrder(steps: seq<Step>)
    ensures WellFormed(Run(steps).folds)
    ensures NoCollisions(steps) ==> Laminar(Run(steps).folds)
  {
    if steps != [] {
      var init := steps[..|steps| - 1];
      RunsKeepOrder(init);
      StepKeepsOrder(Run(init), steps[|steps| - 1]);
    }
  }

  /** In every reachable state, crossing folds included, the tables built for
      the folds are exact: which lines are hidden, and how many before any line. */
  lemma ReachableIndexExact(steps: seq<Step>, index: ClosedIndex, line: nat)
    requires IsIndexOf(index, Run(steps).folds)
    ensures OuterRanges(Run(steps).folds, index.outer) && HiddenRanges(Run(steps).folds, index.hidden)
    ensures CountBefore(index, line) == HiddenCount(Run(steps).folds, line)
  {
    RunsKeepOrder(steps);
    IndexMeans(Run(steps).folds);
    CountBeforeExact(index, Run(steps).folds, line);
  }

  /** Without a removal of lines folds stay nested. */
  lemma GrowingRunsStayNested(steps: seq<Step>)
    requires NoLinesRemoved(steps)
    ensures Laminar(Run(steps).folds)
  {
    GrowingRunsAreGentle(steps);
    RunsKeepOrder(steps);
  }

  /** In every state reached without a collision, the level the stack computes for a
      fold is the number of folds that enclose it. */
  lemma ReachableLevels(steps: seq<Step>, n: nat)
    requires NoCollisions(steps) && n < |Run(steps).folds|
    ensures Level(Run(steps).folds, n) == Enclosing(Run(steps).folds[..n + 1], Run(steps).folds[n])
  {
    RunsKeepOrder(steps);
    LevelCountsEnclosing(Run(steps).folds, n);
  }
}
