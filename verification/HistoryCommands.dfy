/** The steps of a run as the change manager and the buffer carry them out, and the merges
    that end an insert session (ovim-core/src/editor/input/insert_mode.rs). */
module HistoryCommands {
  import opened Basics
  import Edits
  import opened History
  import opened HistoryRuns
  import opened Changes

  method ApplyEdits(edits: seq<Edits.Edit>, buffer: Edits.Buffer)
    requires edits != [] ==> buffer.modifiable
    modifies buffer`text
    ensures buffer.text == Edits.ApplyAll(edits, old(buffer.text))
  {
    ghost var start := buffer.text;
    for i := 0 to |edits|
      invariant buffer.text == Edits.ApplyAll(edits[..i], start)
    {
      edits[i].ApplyTo(buffer);
      assert edits[..i + 1][..i] == edits[..i];
    }
    assert edits[..|edits|] == edits;
  }

  method PopOptionalOn(m: ChangeManager, token: Option<nat>,
                       ghost buffer: Edits.Buffer) returns (change: Option<Change>)
    modifies m`undoStack
    ensures (m.Of(buffer), change) == PopOptional(old(m.Of(buffer)), token)
  {
    change := None;
    if token.Some? {
      change := m.PopByToken(token.value);
    }
  }

  /** A change (`cc`, `cw`, ...) that ends: the typed text and the deletion before it become
      one entry. */
  method MergeChange(m: ChangeManager, buffer: Edits.Buffer, session: Option<nat>, delete: Option<nat>)
    modifies m
    ensures m.Of(buffer) == MergeEntries(old(m.Of(buffer)), session, delete, [], false)
  {
    var insert := PopOptionalOn(m, session, buffer);
    var deletion := PopOptionalOn(m, delete, buffer);
    var merged := EditsOf(deletion) + EditsOf(insert);
    assert merged + [] == merged && Edits.ApplyAll([], buffer.text) == buffer.text;
    if merged != [] {
      var token := m.PushChange(Recorded(merged, None));
    }
  }

  /** A block insert that ends: what was typed is repeated on the other lines, and it all
      becomes one entry; without an entry to redeem nothing happens. */
  method MergeBlock(m: ChangeManager, buffer: Edits.Buffer, session: Option<nat>, delete: Option<nat>,
                    extra: seq<Edits.Edit>)
    requires extra != [] ==> buffer.modifiable
    modifies m, buffer`text
    ensures m.Of(buffer) == MergeEntries(old(m.Of(buffer)), session, delete, extra, true)
  {
    var insert := PopOptionalOn(m, session, buffer);
    if insert.None? {
      return;
    }
    var edits := EditsOf(insert) + extra;
    ApplyEdits(extra, buffer);
    var deletion := PopOptionalOn(m, delete, buffer);
    Associate(EditsOf(deletion), EditsOf(insert), extra);
    edits := EditsOf(deletion) + edits;
    var token := m.PushChange(Recorded(edits, None));
  }

  // ----- every step --------------------------------------------------------------------

  /** A buffer that refuses edits is not edited; only blocks repeat text on other lines. */
  predicate Performable(modifiable: bool, step: Step) {
    match step
    case Edit(c) => modifiable || !c.Recorded? || c.edits == []
    case Merge(_, _, extra, block) => extra == [] || (block && modifiable)
    case _ => true
  }

  method PerformEdit(m: ChangeManager, buffer: Edits.Buffer, c: Change, ghost saved: string)
    requires Performable(buffer.modifiable, Step.Edit(c))
    modifies m, buffer`text
    ensures m.Of(buffer) == After(Session(old(m.Of(buffer)), saved), Step.Edit(c)).doc
  {
    var ok := c.ApplyTo(buffer, {});
    var token := m.PushChange(c);
  }

  method PerformMove(m: ChangeManager, buffer: Edits.Buffer, step: Step, ghost saved: string)
    requires step.UndoStep? || step.RedoStep?
    modifies m, buffer`text
    ensures m.Of(buffer) == After(Session(old(m.Of(buffer)), saved), step).doc
  {
    var outcome;
    if step.UndoStep? {
      outcome := m.Undo(buffer, step.fails);
    } else {
      outcome := m.Redo(buffer, step.fails);
    }
  }

  method PerformMerge(m: ChangeManager, buffer: Edits.Buffer, step: Step, ghost saved: string)
    requires step.Merge? && Performable(buffer.modifiable, step)
    modifies m, buffer`text
    ensures m.Of(buffer) == After(Session(old(m.Of(buffer)), saved), step).doc
  {
    if step.block {
      MergeBlock(m, buffer, step.session, step.delete, step.extra);
    } else {
      MergeChange(m, buffer, step.session, step.delete);
    }
  }

  method PerformMark(m: ChangeManager, buffer: Edits.Buffer, step: Step, ghost saved: string)
    requires step.GroupStep? || step.Save? || step.ForgetSave? || step.SetModifiable?
    modifies m, buffer`modifiable
    ensures m.Of(buffer) == After(Session(old(m.Of(buffer)), saved), step).doc
  {
    match step {
      case GroupStep(since) => m.GroupSince(since);
      case Save => m.MarkSaved();
      case ForgetSave => m.ClearSavePoint();
      case SetModifiable(on) => buffer.SetModifiable(on);
    }
  }

  /** Manager and buffer take every step as runs take it. */
  method Perform(m: ChangeManager, buffer: Edits.Buffer, step: Step, ghost saved: string)
    requires Performable(buffer.modifiable, step)
    modifies m, buffer
    ensures m.Of(buffer) == After(Session(old(m.Of(buffer)), saved), step).doc
  {
    if step.Edit? {
      PerformEdit(m, buffer, step.change, saved);
    } else if step.UndoStep? || step.RedoStep? {
      PerformMove(m, buffer, step, saved);
    } else if step.Merge? {
      PerformMerge(m, buffer, step, saved);
    } else {
      PerformMark(m, buffer, step, saved);
    }
  }

  predicate AllPerformable(text: string, steps: seq<Step>) {
    forall k :: 0 <= k < |steps| ==> Performable(Run(Start(text), steps[..k]).doc.modifiable, steps[k])
  }

  /** A new buffer and manager are, after any steps, in the state of the run, so what runs
      promise holds of them. */
  method PerformAll(text: string, steps: seq<Step>) returns (m: ChangeManager, buffer: Edits.Buffer)
    requires AllPerformable(text, steps)
    ensures fresh(m) && fresh(buffer) && m.Of(buffer) == Run(Start(text), steps).doc
  {
    buffer := new Edits.Buffer(text);
    m := new ChangeManager();
    for i := 0 to |steps|
      invariant fresh(m) && fresh(buffer) && m.Of(buffer) == Run(Start(text), steps[..i]).doc
    {
      ghost var s := Run(Start(text), steps[..i]);
      assert steps[..i + 1][..i] == steps[..i];
      Perform(m, buffer, steps[i], s.lastSaved);
    }
    assert steps[..|steps|] == steps;
  }
}
