/** Which states count as saved: those whose applied entries are the ones that were
    applied at the last save (ovim-core/src/change.rs). */
module SavedStates {
  import opened Basics
  import opened Edits
  import opened History
  import opened HistoryRuns

  /** After undo and redo, a buffer is at the save point exactly when as many entries
      are applied as were when it was saved. */
  lemma SavedExactlyWhereSaved(d: Doc, e: Doc)
    requires Ordered(d) && SameHistory(e, d.(savePoint := Some(TopSeq(d))))
    ensures AtSavePoint(e) <==> |e.undo| == |d.undo|
  {
    assert Timeline(e) == Timeline(d);
    AppliedOnTimeline(d);
    AppliedOnTimeline(e);
  }

  /** The number on top is the one of the last entry applied. */
  lemma AppliedOnTimeline(d: Doc)
    ensures |d.undo| <= |Timeline(d)|
    ensures TopSeq(d) == if d.undo == [] then 0 else Timeline(d)[|d.undo| - 1].seqNo
  {
  }

  // ----- all runs --------------------------------------------------------------

  /** The numbers of the first `h` entries of the timeline. */
  function NumbersTo(d: Doc, h: nat): (r: seq<nat>)
    requires h <= |Timeline(d)|
    ensures |r| == h && forall k :: 0 <= k < h ==> r[k] == Timeline(d)[k].seqNo
  {
    seq(h, k requires 0 <= k < h => Timeline(d)[k].seqNo)
  }

  /** The numbers of the entries applied. */
  function Applied(d: Doc): (r: seq<nat>)
    ensures |r| == |d.undo| && forall k :: 0 <= k < |r| ==> r[k] == d.undo[k].seqNo
  {
    NumbersTo(d, |d.undo|)
  }

  /** What is left of the saved entries after a merge that took entries off the undo
      stack and pushed none: those it took off from below a saved one on the redo stack
      do not count any more. */
  function Remaining(saved: seq<nat>, before: Doc, after: Doc): seq<nat> {
    if |saved| > |before.undo| >= |after.undo| && after.nextSeq == before.nextSeq
    then saved[..|after.undo|] + saved[|before.undo|..] else saved
  }

  /** The numbers of the entries that were applied at the last save of a run: none when
      it has saved nothing, as the loaded text is the saved one; no such entries exist
      once the save point is cleared. */
  function Saved(s: Session, steps: seq<Step>): Option<seq<nat>> {
    if steps == [] then Some([])
    else
      var init, step := steps[..|steps| - 1], steps[|steps| - 1];
      var d, saved := Run(s, init).doc, Saved(s, init);
      match step
      case Save => Some(Applied(d))
      case ForgetSave => None
      case Merge(_, _, _, _) => if saved.None? then None else Some(Remaining(saved.value, d, Run(s, steps).doc))
      case _ => saved
  }

  function Last(numbers: seq<nat>): nat {
    if numbers == [] then 0 else numbers[|numbers| - 1]
  }

  /** The save point is the last of these numbers, and wherever it is on the timeline
      these are the numbers up to it. */
  predicate Marks(d: Doc, saved: Option<seq<nat>>) {
    Ordered(d) &&
    match saved
    case None => d.savePoint == None
    case Some(numbers) => d.savePoint == Some(Last(numbers)) && Stands(d, numbers)
  }

  predicate Stands(d: Doc, numbers: seq<nat>) {
    forall h: nat :: h <= |Timeline(d)| && Last(NumbersTo(d, h)) == Last(numbers) ==> NumbersTo(d, h) == numbers
  }

  lemma MarksExactly(d: Doc, saved: Option<seq<nat>>)
    requires Marks(d, saved)
    ensures AtSavePoint(d) <==> saved == Some(Applied(d))
  {
    assert Last(Applied(d)) == TopSeq(d);
  }

  lemma SavingMarks(d: Doc)
    requires Ordered(d)
    ensures Marks(d.(savePoint := Some(TopSeq(d))), Some(Applied(d)))
  {
    SaveKeepsOrder(d);
    var e, n := d.(savePoint := Some(TopSeq(d))), |d.undo|;
    assert Timeline(e) == Timeline(d);
    forall h: nat | h <= |Timeline(e)| && Last(NumbersTo(e, h)) == Last(Applied(d))
      ensures NumbersTo(e, h) == Applied(d)
    {
      assert h == n;
    }
  }

  lemma SameEntriesMark(d: Doc, e: Doc, saved: Option<seq<nat>>)
    requires Marks(d, saved) && Ordered(e) && e.savePoint == d.savePoint
    requires |Timeline(e)| == |Timeline(d)|
    requires forall k :: 0 <= k < |Timeline(e)| ==> SameEntry(Timeline(e)[k], Timeline(d)[k])
    ensures Marks(e, saved)
  {
    forall h: nat | h <= |Timeline(e)| ensures NumbersTo(e, h) == NumbersTo(d, h) {
    }
  }

  /** A new entry on top has a number of its own. */
  lemma PushMarks(d: Doc, h: nat, c: Change, text: string, saved: Option<seq<nat>>)
    requires Marks(d, saved) && h <= |d.undo|
    ensures Marks(PushOver(d, h, c, text), saved)
  {
    var e := PushOver(d, h, c, text);
    PushOverKeepsOrder(d, h, c, text);
    assert Timeline(e) == Timeline(d)[..h] + [UndoEntry(c, d.nextSeq)];
    forall k: nat | k <= h ensures NumbersTo(e, k) == NumbersTo(d, k) {
    }
    assert Last(NumbersTo(e, h + 1)) == d.nextSeq;
  }

  lemma CutNumbers(d: Doc, h: nat, k: nat)
    requires h <= |d.undo| && k <= |Timeline(CutBack(d, h))|
    ensures k <= h ==> NumbersTo(CutBack(d, h), k) == NumbersTo(d, k)
    ensures k > h ==>
              var all := NumbersTo(d, k - h + |d.undo|);
              |all| > |d.undo| && NumbersTo(CutBack(d, h), k) == all[..h] + all[|d.undo|..]
  {
    TimelineAfterDrop(d, h);
  }

  lemma CutStands(d: Doc, h: nat, k: nat, numbers: seq<nat>)
    requires Ordered(d) && Stands(d, numbers) && h <= |d.undo| && k <= |Timeline(CutBack(d, h))|
    requires Last(NumbersTo(CutBack(d, h), k)) == Last(numbers)
    ensures NumbersTo(CutBack(d, h), k) == Remaining(numbers, d, CutBack(d, h))
  {
    CutNumbers(d, h, k);
    if k > h {
      assert Last(NumbersTo(d, k - h + |d.undo|)) == Last(numbers);
    } else {
      assert Last(NumbersTo(d, k)) == Last(numbers);
    }
  }

  lemma CutMarks(d: Doc, h: nat, saved: Option<seq<nat>>)
    requires Marks(d, saved) && h <= |d.undo|
    ensures var e := CutBack(d, h);
            Marks(e, if saved.None? then None else Some(Remaining(saved.value, d, e)))
  {
    DropKeepsOrder(d, h);
    if saved.Some? {
      var left := Remaining(saved.value, d, CutBack(d, h));
      assert Last(left) == Last(saved.value);
      forall k: nat | k <= |Timeline(CutBack(d, h))| && Last(NumbersTo(CutBack(d, h), k)) == Last(left)
        ensures NumbersTo(CutBack(d, h), k) == left
      {
        CutStands(d, h, k, saved.value);
      }
    }
  }

  lemma MergeMarks(d: Doc, session: Option<nat>, delete: Option<nat>, extra: seq<Edits.Edit>, block: bool,
                   saved: Option<seq<nat>>)
    requires Marks(d, saved)
    ensures var e := MergeEntries(d, session, delete, extra, block);
            Marks(e, if saved.None? then None else Some(Remaining(saved.value, d, e)))
  {
    var h := MergeBase(d, session, delete);
    var merged := EditsBetween(d, h, |d.undo|) + extra;
    MergeShape(d, session, delete, extra, block);
    if block && Left(d, |d.undo|, session) == |d.undo| {
      if saved.Some? {
        assert Remaining(saved.value, d, d) == saved.value;
      }
    } else if block || merged != [] {
      PushMarks(d, h, Recorded(merged, None), ApplyAll(extra, d.text), saved);
    } else {
      CutMarks(d, h, saved);
    }
  }

  lemma StepMarks(s: Session, step: Step, saved: Option<seq<nat>>)
    requires Marks(s.doc, saved) && !step.Save? && !step.ForgetSave? && !step.Merge?
    ensures Marks(After(s, step).doc, saved)
  {
    var d, e := s.doc, After(s, step).doc;
    if step.Edit? {
      PushIsPushOver(d, step.change, e.text);
      PushMarks(d, |d.undo|, step.change, e.text, saved);
    } else {
      StepKeepsOrder(s, step);
      QuietStepKeepsEntries(s, step);
      KeepsSavePoint(s, step);
      SameEntriesMark(d, e, saved);
    }
  }

  lemma KeepsSavePoint(s: Session, step: Step)
    requires step.UndoStep? || step.RedoStep? || step.GroupStep? || step.SetModifiable?
    ensures After(s, step).doc.savePoint == s.doc.savePoint
  {
    if step.UndoStep? || step.RedoStep? {
      UndoRedoKeepHistory(s.doc, step.fails);
    }
  }

  lemma {:induction false} RunMarks(text: string, steps: seq<Step>)
    ensures Marks(Run(Start(text), steps).doc, Saved(Start(text), steps))
  {
    if steps == [] {
      return;
    }
    var init, step := steps[..|steps| - 1], steps[|steps| - 1];
    var s, saved := Run(Start(text), init), Saved(Start(text), init);
    RunMarks(text, init);
    if step.Save? {
      SavingMarks(s.doc);
    } else if step.ForgetSave? {
      StepKeepsOrder(s, step);
    } else if step.Merge? {
      MergeMarks(s.doc, step.session, step.delete, step.extra, step.block, saved);
    } else {
      StepMarks(s, step, saved);
    }
  }

  /** What "unmodified" means, in both directions and over every run of edits, undo, redo,
      marks, merges and saves: the entries applied are the ones applied at the last save. */
  lemma AtSavePointExactly(text: string, steps: seq<Step>)
    ensures AtSavePoint(Run(Start(text), steps).doc)
            <==> Saved(Start(text), steps) == Some(Applied(Run(Start(text), steps).doc))
  {
    RunMarks(text, steps);
    MarksExactly(Run(Start(text), steps).doc, Saved(Start(text), steps));
  }

  // ----- undo and redo after a save ------------------------------------------------

  predicate AllMoves(steps: seq<Step>) {
    forall k :: 0 <= k < |steps| ==> steps[k].UndoStep? || steps[k].RedoStep?
  }

  lemma {:induction false} MovesKeepHistoryInRuns(s: Session, moves: seq<Step>)
    requires AllMoves(moves)
    ensures SameHistory(Run(s, moves).doc, s.doc)
  {
    if moves != [] {
      var init, move := moves[..|moves| - 1], moves[|moves| - 1];
      MovesKeepHistoryInRuns(s, init);
      UndoRedoKeepHistory(Run(s, init).doc, move.fails);
    }
  }

  /** After a save, however often one undoes and redoes, the buffer counts as saved
      exactly when as many entries are applied as were at the save. */
  lemma MovesAfterSave(text: string, steps: seq<Step>, moves: seq<Step>)
    requires AllMoves(moves)
    ensures var d, e := Run(Start(text), steps).doc, Run(After(Run(Start(text), steps), Save), moves).doc;
            AtSavePoint(e) <==> |e.undo| == |d.undo|
  {
    var s := Run(Start(text), steps);
    RunKeepsOrder(text, steps);
    MovesKeepHistoryInRuns(After(s, Save), moves);
    SavedExactlyWhereSaved(s.doc, Run(After(s, Save), moves).doc);
  }
}
