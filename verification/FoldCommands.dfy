/** The fold commands as a manager carries them out: each is one of the steps that runs are
    made of (ovim-core/src/fold.rs). */
module FoldCommands {
  import opened Basics
  import opened Folds
  import opened FoldOrder
  import opened FoldLevels
  import opened FoldUpdates
  import opened FoldManagers
  import opened FoldRuns

  datatype Command =
    | OpenOne(line: nat)
    | CloseOne(line: nat)
    | ToggleOne(line: nat)
    | SetRecursive(line: nat, open: bool)
    | Reveal(line: nat)
    | ReapplyFoldlevel
    | OpenAll
    | CloseAll
    | ReduceFolding(count: nat)
    | FoldMore(count: nat)
    | CreateFold(start: nat, end: nat)
    | DeleteFoldAt(line: nat)
    | DeleteRecursive(line: nat)
    | DeleteAll
    | SetEnabled(on: bool)
    | SetAutoFoldsFrom(ranges: seq<Range>, lineCount: nat, version: nat, from: Source)
    | AdjustForLineCount(lineCount: nat, pivot: nat)
    | NoteLineCount(lineCount: nat)

  function StateOf(m: FoldManager): State
    reads m`folds, m`syncedLineCount
  {
    State(m.folds, m.syncedLineCount)
  }

  /** A step that finds no fold to change. */
  function NoFold(m: FoldManager): Step
    reads m`folds
  {
    SetOpen(|m.folds|, true)
  }

  /** Opening, closing or toggling one fold. */
  method PerformOne(m: FoldManager, c: Command) returns (ghost step: Step)
    requires m.Valid() && (c.OpenOne? || c.CloseOne? || c.ToggleOne?)
    modifies m`folds, m`generation, m`closed
    ensures m.Valid() && StateOf(m) == After(old(StateOf(m)), step)
  {
    step := NoFold(m);
    var changed := false;
    match c {
      case OpenOne(line) =>
        changed := m.OpenOne(line);
        if changed {
          ghost var k :| IsFirstClosed(old(m.folds), line, k) && m.folds == WithOpen(old(m.folds), k, true);
          step := SetOpen(k, true);
        }
      case CloseOne(line) =>
        changed := m.CloseOne(line);
        if changed {
          ghost var k :| IsDeepestOpen(old(m.folds), line, k) && m.folds == WithOpen(old(m.folds), k, false);
          step := SetOpen(k, false);
        }
      case ToggleOne(line) =>
        ghost var closed := ClosedAt(m.InForce(), line);
        changed := m.ToggleOne(line);
        if changed {
          ghost var k :| (if closed then IsFirstClosed(old(m.folds), line, k)
                          else IsDeepestOpen(old(m.folds), line, k)) &&
                         m.folds == WithOpen(old(m.folds), k, closed);
          step := SetOpen(k, closed);
        }
    }
  }

  /** Opening or closing by line. */
  method PerformAround(m: FoldManager, c: Command) returns (ghost step: Step)
    requires m.Valid() && (c.SetRecursive? || c.Reveal?)
    modifies m`folds, m`generation, m`closed
    ensures m.Valid() && StateOf(m) == After(old(StateOf(m)), step)
  {
    var changed;
    if c.SetRecursive? {
      step := SetAround(c.line, c.open);
      changed := m.SetRecursive(c.line, c.open);
    } else {
      step := if m.enabled then SetAround(c.line, true) else NoFold(m);
      changed := m.Reveal(c.line);
    }
  }

  /** Opening or closing by level. */
  method PerformLevel(m: FoldManager, c: Command) returns (ghost step: Step)
    requires m.Valid() && (c.ReapplyFoldlevel? || c.OpenAll? || c.CloseAll? || c.ReduceFolding? || c.FoldMore?)
    modifies m`folds, m`foldlevel, m`generation, m`closed
    ensures m.Valid() && StateOf(m) == After(old(StateOf(m)), step)
  {
    match c {
      case ReapplyFoldlevel =>
        step := ApplyLevel(m.LevelInForce());
        m.ApplyFoldlevel();
      case OpenAll =>
        step := ApplyLevel(Deepest(Levels(m.folds)));
        m.OpenAll();
      case CloseAll =>
        step := ApplyLevel(0);
        m.CloseAll();
      case ReduceFolding(count) =>
        step := ApplyLevel(m.RaisedLevel(count));
        m.ReduceFolding(count);
      case FoldMore(count) =>
        step := ApplyLevel(m.LoweredLevel(count));
        m.FoldMore(count);
    }
  }

  lemma LastAround(folds: seq<Fold>, line: nat) returns (k: nat)
    ensures k <= |folds|
    ensures k == |folds| ==> forall j :: 0 <= j < |folds| ==> !folds[j].Contains(line)
    ensures k < |folds| ==> folds[k].Contains(line) && forall j :: k < j < |folds| ==> !folds[j].Contains(line)
  {
    if forall j :: 0 <= j < |folds| ==> !folds[j].Contains(line) {
      k := |folds|;
    } else {
      k := |folds| - 1;
      while !folds[k].Contains(line)
        invariant k < |folds| && forall j :: k < j < |folds| ==> !folds[j].Contains(line)
        decreases k
      {
        k := k - 1;
      }
    }
  }

  lemma FirstAround(folds: seq<Fold>, line: nat) returns (k: nat)
    ensures k <= |folds|
    ensures k == |folds| ==> forall j :: 0 <= j < |folds| ==> !folds[j].Contains(line)
    ensures k < |folds| ==> folds[k].Contains(line) && forall j :: 0 <= j < k ==> !folds[j].Contains(line)
  {
    k := 0;
    while k < |folds| && !folds[k].Contains(line)
      invariant k <= |folds| && forall j :: 0 <= j < k ==> !folds[j].Contains(line)
    {
      k := k + 1;
    }
  }

  method PerformDeleteAt(m: FoldManager, line: nat) returns (ghost step: Step)
    requires m.Valid()
    modifies m`folds, m`generation, m`closed
    ensures m.Valid() && StateOf(m) == After(old(StateOf(m)), step)
  {
    ghost var k := LastAround(m.folds, line);
    step := Delete(k);
    m.DeleteFoldAt(line);
  }

  method PerformDeleteRecursive(m: FoldManager, line: nat) returns (ghost step: Step)
    requires m.Valid()
    modifies m`folds, m`generation, m`closed
    ensures m.Valid() && StateOf(m) == After(old(StateOf(m)), step)
  {
    ghost var k := FirstAround(m.folds, line);
    step := DeleteEnclosed(k);
    m.DeleteRecursive(line);
  }

  method PerformCreate(m: FoldManager, start: nat, end: nat) returns (ghost step: Step)
    requires m.Valid()
    modifies m`folds, m`generation, m`closed
    ensures m.Valid() && StateOf(m) == After(old(StateOf(m)), step)
  {
    step := Create(start, end);
    m.CreateFold(start, end);
  }

  method PerformClear(m: FoldManager) returns (ghost step: Step)
    requires m.Valid()
    modifies m`folds, m`autoVersion, m`generation, m`closed
    ensures m.Valid() && StateOf(m) == After(old(StateOf(m)), step)
  {
    step := Clear;
    m.DeleteAll();
  }

  /** Creating and deleting folds. */
  method PerformEdit(m: FoldManager, c: Command) returns (ghost step: Step)
    requires m.Valid() && (c.CreateFold? || c.DeleteFoldAt? || c.DeleteRecursive? || c.DeleteAll?)
    modifies m`folds, m`autoVersion, m`generation, m`closed
    ensures m.Valid() && StateOf(m) == After(old(StateOf(m)), step)
  {
    match c {
      case CreateFold(start, end) => step := PerformCreate(m, start, end);
      case DeleteFoldAt(line) => step := PerformDeleteAt(m, line);
      case DeleteRecursive(line) => step := PerformDeleteRecursive(m, line);
      case DeleteAll => step := PerformClear(m);
    }
  }

  lemma AfterRecompute(s: State, ranges: seq<Range>, lineCount: nat, foldlevel: Option<nat>, folds: seq<Fold>)
    requires folds == AutoResult(s.folds, ranges, lineCount, foldlevel)
    ensures After(s, Recompute(ranges, lineCount, foldlevel)) == State(folds, lineCount)
  {
  }

  method PerformRecompute(m: FoldManager, ranges: seq<Range>, lineCount: nat, version: nat, from: Source)
    returns (ghost step: Step)
    requires m.Valid()
    modifies m
    ensures m.Valid() && StateOf(m) == After(old(StateOf(m)), step)
  {
    step := Recompute(ranges, lineCount, m.foldlevel);
    ghost var before, level := StateOf(m), m.foldlevel;
    m.SetAutoFoldsFrom(ranges, lineCount, version, from);
    AfterRecompute(before, ranges, lineCount, level, m.folds);
  }

  method PerformFollow(m: FoldManager, lineCount: nat, pivot: nat) returns (ghost step: Step)
    requires m.Valid()
    modifies m`folds, m`syncedLineCount, m`generation, m`closed
    ensures m.Valid() && StateOf(m) == After(old(StateOf(m)), step)
  {
    step := Follow(lineCount, pivot);
    ghost var before := StateOf(m);
    m.AdjustForLineCount(lineCount, pivot);
    FollowAdjusts(before, lineCount, pivot);
  }

  /** Following the buffer, and switching folding. */
  method PerformUpdate(m: FoldManager, c: Command) returns (ghost step: Step)
    requires m.Valid() && (c.SetEnabled? || c.SetAutoFoldsFrom? || c.AdjustForLineCount? || c.NoteLineCount?)
    modifies m
    ensures m.Valid() && StateOf(m) == After(old(StateOf(m)), step)
  {
    match c {
      case SetEnabled(on) =>
        step := NoFold(m);
        m.SetEnabled(on);
      case SetAutoFoldsFrom(ranges, lineCount, version, from) =>
        step := PerformRecompute(m, ranges, lineCount, version, from);
      case AdjustForLineCount(lineCount, pivot) => step := PerformFollow(m, lineCount, pivot);
      case NoteLineCount(lineCount) =>
        step := Note(lineCount);
        m.NoteLineCount(lineCount);
    }
  }

  /** Every command is one step of a run, so what runs keep every manager keeps. */
  method Perform(m: FoldManager, c: Command) returns (ghost step: Step)
    requires m.Valid()
    modifies m
    ensures m.Valid() && StateOf(m) == After(old(StateOf(m)), step)
  {
    if c.OpenOne? || c.CloseOne? || c.ToggleOne? {
      step := PerformOne(m, c);
    } else if c.CreateFold? || c.DeleteFoldAt? || c.DeleteRecursive? || c.DeleteAll? {
      step := PerformEdit(m, c);
    } else if c.SetEnabled? || c.SetAutoFoldsFrom? || c.AdjustForLineCount? || c.NoteLineCount? {
      step := PerformUpdate(m, c);
    } else if c.SetRecursive? || c.Reveal? {
      step := PerformAround(m, c);
    } else {
      step := PerformLevel(m, c);
    }
  }

  /** A new manager after any commands is in the state of a run of as many steps. */
  method PerformAll(commands: seq<Command>) returns (m: FoldManager, ghost steps: seq<Step>)
    ensures fresh(m) && m.Valid() && |steps| == |commands| && StateOf(m) == Run(steps)
  {
    m := new FoldManager();
    steps := [];
    for i := 0 to |commands|
      invariant fresh(m) && m.Valid() && |steps| == i && StateOf(m) == Run(steps)
    {
      ghost var step := Perform(m, commands[i]);
      assert (steps + [step])[..|steps|] == steps;
      steps := steps + [step];
    }
  }
}
