/** Undo groups over runs of the change history: when marks and merges keep the
    border between the stacks out of groups, and when undo and redo are inverse
    to each other (ovim-core/src/change.rs). */
module UndoGroups {
  import opened Basics
  import opened Edits
  import opened History
  import opened HistoryRuns
  import opened SavePoints

  // ----- undo, then redo -------------------------------------------------------------

  /** The border between the stacks does not run through a group. */
  predicate WholeGroups(d: Doc) {
    TopGroup(d.undo).Some? ==> TopGroup(d.redo) != TopGroup(d.undo)
  }

  /** A buffer that accepts edits has the texts its history was recorded on; one that
      refuses them may have any. */
  predicate Retraceable(d: Doc, texts: seq<string>) {
    d.modifiable ==> Tracks(d, texts)
  }

  lemma MoveKeepsRetraceable(d: Doc, texts: seq<string>)
    requires Retraceable(d, texts)
    ensures d.undo != [] ==> Retraceable(UndoTop(d), texts)
    ensures d.redo != [] ==> Retraceable(RedoTop(d), texts)
  {
    MovesKeepHistory(d);
    if d.modifiable {
      if d.undo != [] {
        UndoTopText(d, texts);
      }
      if d.redo != [] {
        RedoTopText(d, texts);
      }
    }
  }

  lemma RedoTopUndoesUndoTop(d: Doc, texts: seq<string>)
    requires Retraceable(d, texts) && d.undo != []
    ensures RedoTop(UndoTop(d)) == d
  {
    var e := UndoTop(d);
    MoveKeepsRetraceable(d, texts);
    if d.modifiable {
      RedoTopText(e, texts);
    }
    assert e.undo + [d.undo[|d.undo| - 1]] == d.undo;
    assert e.redo[..|e.redo| - 1] == d.redo;
  }

  lemma UndoTopUndoesRedoTop(d: Doc, texts: seq<string>)
    requires Retraceable(d, texts) && d.redo != []
    ensures UndoTop(RedoTop(d)) == d
  {
    var e := RedoTop(d);
    MoveKeepsRetraceable(d, texts);
    if d.modifiable {
      UndoTopText(e, texts);
    }
    assert e.redo + [d.redo[|d.redo| - 1]] == d.redo;
    assert e.undo[..|e.undo| - 1] == d.undo;
  }

  lemma {:induction false} UndoGroupEnds(d: Doc, g: int, fails: set<Path>)
    ensures TopGroup(UndoGroup(d, g, fails).0.undo) != Some(g)
    ensures TopGroup(d.redo) == Some(g) ==> TopGroup(UndoGroup(d, g, fails).0.redo) == Some(g)
    decreases |d.undo|
  {
    if TopGroup(d.undo) == Some(g) {
      UndoGroupEnds(UndoTop(d), g, fails);
    }
  }

  lemma {:induction false} RedoGroupEnds(d: Doc, g: int, fails: set<Path>)
    ensures TopGroup(RedoGroup(d, g, fails).0.redo) != Some(g)
    ensures TopGroup(d.undo) == Some(g) ==> TopGroup(RedoGroup(d, g, fails).0.undo) == Some(g)
    decreases |d.redo|
  {
    if TopGroup(d.redo) == Some(g) {
      RedoGroupEnds(RedoTop(d), g, fails);
    }
  }

  /** Redoing group `g` from where undoing it ended does what redoing it from
      the start would. */
  lemma {:induction false} RedoGroupAfterUndoGroup(d: Doc, g: int, fails: set<Path>, fails': set<Path>,
                                                   texts: seq<string>)
    requires Retraceable(d, texts)
    ensures RedoGroup(UndoGroup(d, g, fails).0, g, fails') == RedoGroup(d, g, fails')
    decreases |d.undo|
  {
    if TopGroup(d.undo) == Some(g) {
      var e := UndoTop(d);
      MoveKeepsRetraceable(d, texts);
      RedoTopUndoesUndoTop(d, texts);
      RedoGroupAfterUndoGroup(e, g, fails, fails', texts);
      assert RedoGroup(e, g, fails') == RedoGroup(RedoTop(e), g, fails');
    }
  }

  lemma {:induction false} UndoGroupAfterRedoGroup(d: Doc, g: int, fails: set<Path>, fails': set<Path>,
                                                   texts: seq<string>)
    requires Retraceable(d, texts)
    ensures UndoGroup(RedoGroup(d, g, fails).0, g, fails') == UndoGroup(d, g, fails')
    decreases |d.redo|
  {
    if TopGroup(d.redo) == Some(g) {
      var e := RedoTop(d);
      MoveKeepsRetraceable(d, texts);
      UndoTopUndoesRedoTop(d, texts);
      UndoGroupAfterRedoGroup(e, g, fails, fails', texts);
      assert UndoGroup(e, g, fails') == UndoGroup(UndoTop(e), g, fails');
    }
  }

  lemma {:induction false} RedoGroupShrinks(d: Doc, g: int, fails: set<Path>)
    ensures |RedoGroup(d, g, fails).0.redo| <= |d.redo|
    ensures TopGroup(d.redo) == Some(g) ==> |RedoGroup(d, g, fails).0.redo| < |d.redo|
    decreases |d.redo|
  {
    if TopGroup(d.redo) == Some(g) {
      RedoGroupShrinks(RedoTop(d), g, fails);
    }
  }

  lemma {:induction false} UndoGroupShrinks(d: Doc, g: int, fails: set<Path>)
    ensures |UndoGroup(d, g, fails).0.undo| <= |d.undo|
    ensures TopGroup(d.undo) == Some(g) ==> |UndoGroup(d, g, fails).0.undo| < |d.undo|
    decreases |d.undo|
  {
    if TopGroup(d.undo) == Some(g) {
      UndoGroupShrinks(UndoTop(d), g, fails);
    }
  }

  /** A successful undo followed by a successful redo restores text and both
      stacks exactly when the redo stack did not already hold, on top, more of
      the group that was undone. */
  lemma UndoThenRedoRestores(d: Doc, fails: set<Path>, fails': set<Path>, texts: seq<string>)
    requires Retraceable(d, texts)
    requires Undo(d, fails).1 == Done && Redo(Undo(d, fails).0, fails').1 == Done
    ensures Redo(Undo(d, fails).0, fails').0 == d <==> WholeGroups(d)
  {
    RedoTopUndoesUndoTop(d, texts);
    if TopGroup(d.undo).Some? {
      var g, e := TopGroup(d.undo).value, UndoTop(d);
      UndoGroupEnds(e, g, fails);
      MoveKeepsRetraceable(d, texts);
      RedoGroupAfterUndoGroup(e, g, fails, fails', texts);
      assert RedoGroup(e, g, fails') == RedoGroup(d, g, fails');
      RedoGroupShrinks(d, g, fails');
    }
  }

  lemma RedoThenUndoRestores(d: Doc, fails: set<Path>, fails': set<Path>, texts: seq<string>)
    requires Retraceable(d, texts)
    requires Redo(d, fails).1 == Done && Undo(Redo(d, fails).0, fails').1 == Done
    ensures Undo(Redo(d, fails).0, fails').0 == d <==> WholeGroups(d)
  {
    UndoTopUndoesRedoTop(d, texts);
    if TopGroup(d.redo).Some? {
      var g, e := TopGroup(d.redo).value, RedoTop(d);
      RedoGroupEnds(e, g, fails);
      MoveKeepsRetraceable(d, texts);
      UndoGroupAfterRedoGroup(e, g, fails, fails', texts);
      assert UndoGroup(e, g, fails') == UndoGroup(d, g, fails');
      UndoGroupShrinks(d, g, fails');
    }
  }

  // ----- what keeps groups whole -----------------------------------------------------

  /** Whatever the outcome, undo and redo never stop inside a group. */
  lemma UndoRedoKeepWholeGroups(d: Doc, fails: set<Path>)
    requires WholeGroups(d)
    ensures WholeGroups(Undo(d, fails).0) && WholeGroups(Redo(d, fails).0)
  {
    if d.undo != [] && TopGroup(d.undo).Some? {
      UndoGroupEnds(UndoTop(d), TopGroup(d.undo).value, fails);
    }
    if d.redo != [] && TopGroup(d.redo).Some? {
      RedoGroupEnds(RedoTop(d), TopGroup(d.redo).value, fails);
    }
  }

  /** Marking from `since` reaches the top of the undo stack. */
  predicate Marks(d: Doc, since: nat) {
    d.undo != [] && d.undo[|d.undo| - 1].seqNo > since && d.undo[|d.undo| - 1].change.Recorded?
  }

  lemma MarkedTop(d: Doc, since: nat)
    ensures TopGroup(Grouped(d.undo, since)) == if Marks(d, since) then Some(MAX_U64 - since) else TopGroup(d.undo)
  {
  }

  /** Marking puts the border inside a group exactly when it gives the top of the undo
      stack the group that waits on the redo stack. */
  lemma MarkKeepsWholeGroups(d: Doc, since: nat)
    requires WholeGroups(d)
    ensures WholeGroups(d.(undo := Grouped(d.undo, since)))
            <==> !(Marks(d, since) && TopGroup(d.redo) == Some(MAX_U64 - since))
  {
    MarkedTop(d, since);
  }

  predicate NoEdits(d: Doc, h: nat, n: nat)
    requires h <= n <= |d.undo|
  {
    forall k :: h <= k < n ==> EntryEdits(d, k) == []
  }

  /** A merge takes entries off and pushes nothing, for want of edits, and what it
      uncovers has the group that waits on the redo stack. */
  predicate Uncovers(d: Doc, session: Option<nat>, delete: Option<nat>, extra: seq<Edits.Edit>, block: bool) {
    var h := MergeBase(d, session, delete);
    !block && extra == [] && 0 < h < |d.undo| && d.redo != [] && NoEdits(d, h, |d.undo|) &&
    d.undo[h - 1].change.UndoGroup().Some? && d.undo[h - 1].change.UndoGroup() == TopGroup(d.redo)
  }

  lemma {:induction false} NoEditsBetween(d: Doc, h: nat, n: nat)
    requires h <= n <= |d.undo|
    ensures EditsBetween(d, h, n) == [] <==> NoEdits(d, h, n)
  {
    if h < n {
      NoEditsBetween(d, h, n - 1);
      NoEditsBelow(d, h, n);
    }
  }

  lemma NoEditsBelow(d: Doc, h: nat, n: nat)
    requires h < n <= |d.undo|
    ensures NoEdits(d, h, n) <==> NoEdits(d, h, n - 1) && EntryEdits(d, n - 1) == []
  {
  }

  lemma CutWholeGroups(d: Doc, h: nat)
    requires WholeGroups(d) && h <= |d.undo|
    ensures WholeGroups(CutBack(d, h))
            <==> !(0 < h < |d.undo| && d.redo != [] && d.undo[h - 1].change.UndoGroup().Some? &&
                   d.undo[h - 1].change.UndoGroup() == TopGroup(d.redo))
  {
    if h == |d.undo| {
      assert CutBack(d, h) == d;
    }
  }

  /** A merge puts the border inside a group exactly when it uncovers one. */
  lemma MergeKeepsWholeGroups(d: Doc, session: Option<nat>, delete: Option<nat>, extra: seq<Edits.Edit>, block: bool)
    requires WholeGroups(d)
    ensures WholeGroups(MergeEntries(d, session, delete, extra, block))
            <==> !Uncovers(d, session, delete, extra, block)
  {
    var h := MergeBase(d, session, delete);
    MergeShape(d, session, delete, extra, block);
    NoEditsBetween(d, h, |d.undo|);
    CutWholeGroups(d, h);
  }

  /** The tokens a merge redeems were given out for changes with edits. */
  predicate RedeemsEdits(d: Doc, step: Step) {
    step.Merge? ==>
      forall k :: 0 <= k < |d.undo| && (step.session == Some(d.undo[k].seqNo) || step.delete == Some(d.undo[k].seqNo))
                  ==> EntryEdits(d, k) != []
  }

  lemma RedeemedTopHasEdits(d: Doc, step: Step)
    requires step.Merge? && RedeemsEdits(d, step) && MergeBase(d, step.session, step.delete) < |d.undo|
    ensures EditsBetween(d, MergeBase(d, step.session, step.delete), |d.undo|) != []
  {
    var n := |d.undo|;
    assert step.session == Some(d.undo[n - 1].seqNo) || step.delete == Some(d.undo[n - 1].seqNo);
    assert EntryEdits(d, n - 1) != [];
  }

  /** Such a merge does nothing or pushes its entry. */
  lemma RedeemingMergePushes(d: Doc, step: Step)
    requires step.Merge? && RedeemsEdits(d, step)
    ensures var h, e := MergeBase(d, step.session, step.delete), After(Session(d, ""), step).doc;
            var merged := EditsBetween(d, h, |d.undo|) + step.extra;
            e == d || (merged != [] && e == PushOver(d, h, Recorded(merged, None), ApplyAll(step.extra, d.text)))
  {
    var n, h := |d.undo|, MergeBase(d, step.session, step.delete);
    MergeShape(d, step.session, step.delete, step.extra, step.block);
    if h < n {
      RedeemedTopHasEdits(d, step);
    } else {
      assert CutBack(d, h) == d;
    }
  }

  /** The step puts the border between the stacks inside a group. */
  predicate Splits(d: Doc, step: Step) {
    match step
    case GroupStep(since) => Marks(d, since) && TopGroup(d.redo) == Some(MAX_U64 - since)
    case Merge(session, delete, extra, block) => Uncovers(d, session, delete, extra, block)
    case _ => false
  }

  /** Of all steps, only those marks and merges do. */
  lemma StepKeepsWholeGroups(s: Session, step: Step)
    requires WholeGroups(s.doc)
    ensures WholeGroups(After(s, step).doc) <==> !Splits(s.doc, step)
  {
    match step {
      case UndoStep(fails) => UndoRedoKeepWholeGroups(s.doc, fails);
      case RedoStep(fails) => UndoRedoKeepWholeGroups(s.doc, fails);
      case GroupStep(since) => MarkKeepsWholeGroups(s.doc, since);
      case Merge(a, b, extra, block) => MergeKeepsWholeGroups(s.doc, a, b, extra, block);
      case _ =>
    }
  }

  /** An agent turn that pushed two changes, with one without edits between them. */
  function GappedTurn(): Session {
    var turn, nothing := Recorded([Insert(0, "a")], Some(7)), Recorded([], None);
    After(After(After(Start(""), Step.Edit(turn)), Step.Edit(nothing)), Step.Edit(turn))
  }

  lemma GappedTurnStacks()
    ensures var turn, nothing := Recorded([Insert(0, "a")], Some(7)), Recorded([], None);
            GappedTurn().doc.undo == [UndoEntry(turn, 1), UndoEntry(nothing, 2), UndoEntry(turn, 3)]
    ensures GappedTurn().doc.redo == []
  {
  }

  lemma HalfUndoneStacks()
    ensures var turn, nothing := Recorded([Insert(0, "a")], Some(7)), Recorded([], None);
            var d := Undo(GappedTurn().doc, {}).0;
            d.undo == [UndoEntry(turn, 1), UndoEntry(nothing, 2)] && d.redo == [UndoEntry(turn, 3)]
  {
    GappedTurnStacks();
    var d := UndoTop(GappedTurn().doc);
    assert d.undo[1].change == Recorded([], None) && TopGroup(d.undo) == None;
    assert UndoGroup(d, 7, {}) == (d, Done);
  }

  lemma GapUncovers(d: Doc)
    requires |d.undo| == 2 && d.undo[0].change.UndoGroup() == Some(7) && d.undo[1] == UndoEntry(Recorded([], None), 2)
    requires TopGroup(d.redo) == Some(7)
    ensures WholeGroups(d) && !WholeGroups(MergeEntries(d, Some(2), None, [], false))
  {
    assert MergeBase(d, Some(2), None) == 1;
    MergeKeepsWholeGroups(d, Some(2), None, [], false);
  }

  /** A merge that redeems a change without edits can, when it uncovers an agent turn
      whose rest has been undone. */
  lemma EmptyEntryUncoversGroup()
    ensures var s := After(GappedTurn(), UndoStep({}));
            WholeGroups(s.doc) && !WholeGroups(After(s, Merge(Some(2), None, [], false)).doc)
  {
    var s := After(GappedTurn(), UndoStep({}));
    HalfUndoneStacks();
    GapUncovers(s.doc);
    MergeStepMerges(s, Some(2), None, [], false);
  }

  lemma MergeStepMerges(s: Session, session: Option<nat>, delete: Option<nat>, extra: seq<Edits.Edit>, block: bool)
    ensures After(s, Merge(session, delete, extra, block)).doc == MergeEntries(s.doc, session, delete, extra, block)
  {
  }

  /** So can a mark that gives out the id of an agent turn. */
  lemma SharedIdSplitsGroup()
    ensures var typed, turn := Recorded([Insert(0, "a")], None), Recorded([Insert(0, "b")], Some(MAX_U64));
            var s := After(After(After(Start(""), Step.Edit(typed)), Step.Edit(turn)), UndoStep({}));
            WholeGroups(s.doc) && !WholeGroups(After(s, GroupStep(0)).doc)
  {
    var typed, turn := Recorded([Insert(0, "a")], None), Recorded([Insert(0, "b")], Some(MAX_U64));
    var s := After(After(After(Start(""), Step.Edit(typed)), Step.Edit(turn)), UndoStep({}));
    assert s.doc.undo == [UndoEntry(typed, 1)] && s.doc.redo == [UndoEntry(turn, 2)];
    MarkKeepsWholeGroups(s.doc, 0);
  }

  // ----- over runs -------------------------------------------------------------------

  /** The entry below `e` has its group too, or is older than the mark, or cannot carry one. */
  predicate MarkStopsAt(e: UndoEntry, below: UndoEntry) {
    e.change.UndoGroup().Some? ==>
      below.change.UndoGroup() == e.change.UndoGroup() ||
      below.seqNo <= MAX_U64 - e.change.UndoGroup().value ||
      below.change.ResourceOp?
  }

  /** Below an entry with a mark's group, that is, one not among the ids of agent
      turns, the mark has stopped for a reason. */
  predicate MarksStop(all: seq<UndoEntry>, ids: set<int>) {
    forall k :: 0 < k < |all| && !(GroupIn(all[k], ids)) ==> MarkStopsAt(all[k], all[k - 1])
  }

  predicate GroupIn(e: UndoEntry, ids: set<int>) {
    e.change.UndoGroup().Some? && e.change.UndoGroup().value in ids
  }

  /** Agent turns take their group ids from `ids`, and a mark never gives out one of those. */
  predicate Apart(step: Step, ids: set<int>) {
    match step
    case Edit(c) => c.UndoGroup().Some? ==> c.UndoGroup().value in ids
    case GroupStep(since) => MAX_U64 - since !in ids
    case _ => true
  }

  /** What runs keep: numbers ascend, the border is not inside a group, and marks stop. */
  predicate Grouping(d: Doc, ids: set<int>) {
    Ordered(d) && WholeGroups(d) && MarksStop(Timeline(d), ids)
  }

  lemma PushKeepsMarksStop(d: Doc, h: nat, c: Change, text: string, ids: set<int>)
    requires h <= |d.undo| && MarksStop(Timeline(d), ids)
    requires c.UndoGroup().Some? ==> c.UndoGroup().value in ids
    ensures MarksStop(Timeline(PushOver(d, h, c, text)), ids)
  {
    var all, all' := Timeline(d), Timeline(PushOver(d, h, c, text));
    assert all' == all[..h] + [UndoEntry(c, d.nextSeq)];
    forall k | 0 < k < |all'| && !GroupIn(all'[k], ids) ensures MarkStopsAt(all'[k], all'[k - 1]) {
      if k < h {
        assert all'[k] == all[k] && all'[k - 1] == all[k - 1];
      }
    }
  }

  /** On ascending numbers exactly the entries above `since` are marked. */
  lemma {:induction false} GroupedAt(undo: seq<UndoEntry>, since: nat, k: nat)
    requires k < |undo| && forall i, j :: 0 <= i < j < |undo| ==> undo[i].seqNo < undo[j].seqNo
    ensures Grouped(undo, since)[k] == if undo[k].seqNo > since then Marked(undo[k], since) else undo[k]
  {
    if undo[|undo| - 1].seqNo > since && k < |undo| - 1 {
      GroupedAt(undo[..|undo| - 1], since, k);
    }
  }

  /** The entry at `k` of the timeline after a mark. */
  lemma MarkedAt(d: Doc, since: nat, k: nat)
    requires Ordered(d) && k < |Timeline(d)|
    ensures var e, all := d.(undo := Grouped(d.undo, since)), Timeline(d);
            |Timeline(e)| == |all| &&
            Timeline(e)[k] == if k < |d.undo| && all[k].seqNo > since then Marked(all[k], since) else all[k]
  {
    var all := Timeline(d);
    if k < |d.undo| {
      assert forall i :: 0 <= i < |d.undo| ==> d.undo[i] == all[i];
      GroupedAt(d.undo, since, k);
    }
  }

  lemma MarkKeepsStops(d: Doc, since: nat, ids: set<int>, k: nat)
    requires Grouping(d, ids) && MAX_U64 - since !in ids && 0 < k < |Timeline(d)|
    ensures var e := d.(undo := Grouped(d.undo, since));
            k < |Timeline(e)| && (!GroupIn(Timeline(e)[k], ids) ==> MarkStopsAt(Timeline(e)[k], Timeline(e)[k - 1]))
  {
    var all := Timeline(d);
    MarkedAt(d, since, k);
    MarkedAt(d, since, k - 1);
    if !GroupIn(all[k], ids) {
      assert MarkStopsAt(all[k], all[k - 1]);
    }
  }

  lemma GroupStepKeepsGrouping(d: Doc, since: nat, ids: set<int>)
    requires Grouping(d, ids) && MAX_U64 - since !in ids
    ensures Grouping(d.(undo := Grouped(d.undo, since)), ids)
  {
    var e, all := d.(undo := Grouped(d.undo, since)), Timeline(d);
    StepKeepsOrder(Session(d, ""), GroupStep(since));
    GroupingKeepsEntries(d, since);
    forall k | 0 < k < |all| && !GroupIn(Timeline(e)[k], ids)
      ensures MarkStopsAt(Timeline(e)[k], Timeline(e)[k - 1])
    {
      MarkKeepsStops(d, since, ids, k);
    }
    MarkKeepsWholeGroups(d, since);
    if Marks(d, since) && d.redo != [] {
      var n := |d.undo|;
      assert all[n] == d.redo[|d.redo| - 1] && all[n - 1] == d.undo[n - 1];
      assert GroupIn(all[n], ids) || MarkStopsAt(all[n], all[n - 1]);
    }
  }

  lemma PushKeepsGrouping(d: Doc, h: nat, c: Change, text: string, ids: set<int>)
    requires Grouping(d, ids) && h <= |d.undo|
    requires c.UndoGroup().Some? ==> c.UndoGroup().value in ids
    ensures Grouping(PushOver(d, h, c, text), ids)
  {
    PushOverKeepsOrder(d, h, c, text);
    PushKeepsMarksStop(d, h, c, text, ids);
  }

  lemma StepKeepsGrouping(s: Session, step: Step, ids: set<int>)
    requires Grouping(s.doc, ids) && Apart(step, ids) && RedeemsEdits(s.doc, step)
    ensures Grouping(After(s, step).doc, ids)
  {
    var d, e := s.doc, After(s, step).doc;
    StepKeepsOrder(s, step);
    match step {
      case Edit(c) =>
        PushIsPushOver(d, c, c.Forward(d.text));
        PushKeepsGrouping(d, |d.undo|, c, c.Forward(d.text), ids);
      case UndoStep(fails) =>
        UndoRedoKeepHistory(d, fails);
        UndoRedoKeepWholeGroups(d, fails);
      case RedoStep(fails) =>
        UndoRedoKeepHistory(d, fails);
        UndoRedoKeepWholeGroups(d, fails);
      case GroupStep(since) => GroupStepKeepsGrouping(d, since, ids);
      case Merge(a, b, extra, block) =>
        var h := MergeBase(d, a, b);
        RedeemingMergePushes(d, step);
        PushKeepsGrouping(d, h, Recorded(EditsBetween(d, h, |d.undo|) + extra, None), ApplyAll(extra, d.text), ids);
      case _ => assert Timeline(e) == Timeline(d);
    }
  }

  predicate AllRedeemEdits(s: Session, steps: seq<Step>) {
    steps == [] ||
    (AllRedeemEdits(s, steps[..|steps| - 1]) && RedeemsEdits(Run(s, steps[..|steps| - 1]).doc, steps[|steps| - 1]))
  }

  /** In every run, when marks give out no id of an agent turn and merges redeem changes
      with edits, the border between the stacks is never inside a group. */
  lemma {:induction false} RunKeepsWholeGroups(text: string, steps: seq<Step>, ids: set<int>)
    requires forall i :: 0 <= i < |steps| ==> Apart(steps[i], ids)
    requires AllRedeemEdits(Start(text), steps)
    ensures Grouping(Run(Start(text), steps).doc, ids)
    decreases |steps|
  {
    if steps != [] {
      var init := steps[..|steps| - 1];
      RunKeepsWholeGroups(text, init, ids);
      StepKeepsGrouping(Run(Start(text), init), steps[|steps| - 1], ids);
    }
  }

  predicate HasEdits(c: Change) {
    c.Recorded? ==> c.edits != []
  }

  predicate AllHaveEdits(all: seq<UndoEntry>) {
    forall k :: 0 <= k < |all| ==> HasEdits(all[k].change)
  }

  lemma EntriesHaveEdits(s: Session, step: Step)
    requires AllHaveEdits(Timeline(s.doc)) && Enabled(s, step)
    ensures RedeemsEdits(s.doc, step)
  {
    var d := s.doc;
    forall k | 0 <= k < |d.undo| ensures HasEdits(d.undo[k].change) {
      assert Timeline(d)[k] == d.undo[k];
    }
  }

  lemma PushKeepsEdits(d: Doc, h: nat, c: Change, text: string)
    requires AllHaveEdits(Timeline(d)) && h <= |d.undo| && HasEdits(c)
    ensures AllHaveEdits(Timeline(PushOver(d, h, c, text)))
  {
    assert Timeline(PushOver(d, h, c, text)) == Timeline(d)[..h] + [UndoEntry(c, d.nextSeq)];
  }

  lemma StepKeepsEdits(s: Session, step: Step)
    requires AllHaveEdits(Timeline(s.doc)) && Enabled(s, step) && (step.Edit? ==> HasEdits(step.change))
    ensures AllHaveEdits(Timeline(After(s, step).doc)) && RedeemsEdits(s.doc, step)
  {
    var d, e := s.doc, After(s, step).doc;
    EntriesHaveEdits(s, step);
    if step.Edit? {
      PushIsPushOver(d, step.change, step.change.Forward(d.text));
      PushKeepsEdits(d, |d.undo|, step.change, step.change.Forward(d.text));
    } else if step.Merge? {
      var h := MergeBase(d, step.session, step.delete);
      var merged := EditsBetween(d, h, |d.undo|) + step.extra;
      RedeemingMergePushes(d, step);
      if e != d {
        PushKeepsEdits(d, h, Recorded(merged, None), ApplyAll(step.extra, d.text));
      }
    } else {
      QuietStepKeepsEntries(s, step);
      forall k | 0 <= k < |Timeline(e)| ensures HasEdits(Timeline(e)[k].change) {
        assert SameEntry(Timeline(e)[k], Timeline(d)[k]) && HasEdits(Timeline(d)[k].change);
      }
    }
  }

  /** When every change pushed has edits, every merge redeems changes with edits. */
  lemma {:induction false} PushedEditsAreRedeemed(text: string, steps: seq<Step>)
    requires AllTake(Start(text), steps)
    requires forall i :: 0 <= i < |steps| && steps[i].Edit? ==> HasEdits(steps[i].change)
    ensures AllRedeemEdits(Start(text), steps) && AllHaveEdits(Timeline(Run(Start(text), steps).doc))
    decreases |steps|
  {
    if steps != [] {
      PushedEditsAreRedeemed(text, steps[..|steps| - 1]);
      StepKeepsEdits(Run(Start(text), steps[..|steps| - 1]), steps[|steps| - 1]);
    }
  }

  /** In every state such a run can reach with no change of text refused, a successful
      undo followed by a successful redo is the identity, and so is the reverse. */
  lemma UndoRedoRoundTripInRuns(text: string, steps: seq<Step>, ids: set<int>, fails: set<Path>, fails': set<Path>)
    requires forall i :: 0 <= i < |steps| ==> Apart(steps[i], ids)
    requires AllRedeemEdits(Start(text), steps) && AllTake(Start(text), steps)
    ensures var d := Run(Start(text), steps).doc;
            (Undo(d, fails).1 == Done && Redo(Undo(d, fails).0, fails').1 == Done
             ==> Redo(Undo(d, fails).0, fails').0 == d) &&
            (Redo(d, fails).1 == Done && Undo(Redo(d, fails).0, fails').1 == Done
             ==> Undo(Redo(d, fails).0, fails').0 == d)
  {
    RunKeepsWholeGroups(text, steps, ids);
    var texts := RunKeepsSound(text, steps);
    var d := Run(Start(text), steps).doc;
    if Undo(d, fails).1 == Done && Redo(Undo(d, fails).0, fails').1 == Done {
      UndoThenRedoRestores(d, fails, fails', texts);
    }
    if Redo(d, fails).1 == Done && Undo(Redo(d, fails).0, fails').1 == Done {
      RedoThenUndoRestores(d, fails, fails', texts);
    }
  }
}
