/** The save point over runs of the change history: which texts the entries of
    both stacks lead between, and when being at the save point means that the
    text is the one last saved (ovim-core/src/change.rs). */
module SavePoints {
  import opened Basics
  import opened Edits
  import opened History
  import opened HistoryRuns

  /** `texts[h]` is the text when `h` entries of the timeline are applied. */
  predicate Tracks(d: Doc, texts: seq<string>) {
    var all := Timeline(d);
    |texts| == |all| + 1 && texts[|d.undo|] == d.text &&
    forall i :: 0 <= i < |all| ==> all[i].change.Leads(texts[i], texts[i + 1])
  }

  /** Number of the state with `h` entries applied. */
  function SeqAt(d: Doc, h: nat): nat
    requires h <= |Timeline(d)|
  {
    if h == 0 then 0 else Timeline(d)[h - 1].seqNo
  }

  /** Wherever the save point is on the timeline, the text there is `saved`. */
  predicate SaveSound(d: Doc, texts: seq<string>, saved: string) {
    |texts| == |Timeline(d)| + 1 &&
    (d.savePoint.Some? ==>
       forall h :: 0 <= h < |texts| && SeqAt(d, h) == d.savePoint.value ==> texts[h] == saved)
  }

  predicate Sound(d: Doc, texts: seq<string>, saved: string) {
    Ordered(d) && Tracks(d, texts) && SaveSound(d, texts, saved)
  }

  lemma BackwardUndoesForward(c: Change, a: string, b: string)
    requires c.Leads(a, b)
    ensures c.Backward(b) == a
  {
    if c.Recorded? {
      UndoAllUndoes(c.edits, a);
    }
  }

  lemma SameTimelineSameStates(d: Doc, e: Doc)
    requires Timeline(d) == Timeline(e)
    ensures forall h :: 0 <= h <= |Timeline(d)| ==> SeqAt(d, h) == SeqAt(e, h)
  {
  }

  /** With the entries where they were, only the text is left to check. */
  lemma SameHistorySound(d: Doc, e: Doc, texts: seq<string>, saved: string)
    requires Sound(d, texts, saved) && SameHistory(e, d)
    ensures Sound(e, texts, saved) <==> texts[|e.undo|] == e.text
  {
    SameTimelineSameStates(d, e);
  }

  // ----- a buffer that accepts edits -----------------------------------------------

  lemma UndoTopText(d: Doc, texts: seq<string>)
    requires Tracks(d, texts) && d.modifiable && d.undo != []
    ensures UndoTop(d).text == texts[|d.undo| - 1]
  {
    var i := |d.undo| - 1;
    assert Timeline(d)[i].change.Leads(texts[i], texts[i + 1]);
    BackwardUndoesForward(Timeline(d)[i].change, texts[i], texts[i + 1]);
  }

  lemma RedoTopText(d: Doc, texts: seq<string>)
    requires Tracks(d, texts) && d.modifiable && d.redo != []
    ensures |d.undo| + 1 < |texts| && RedoTop(d).text == texts[|d.undo| + 1]
  {
    var i := |d.undo|;
    assert Timeline(d)[i].change.Leads(texts[i], texts[i + 1]);
  }

  lemma MoveKeepsSound(d: Doc, texts: seq<string>, saved: string)
    requires Sound(d, texts, saved) && d.modifiable
    ensures d.undo != [] ==> Sound(UndoTop(d), texts, saved)
    ensures d.redo != [] ==> Sound(RedoTop(d), texts, saved)
  {
    MovesKeepHistory(d);
    if d.undo != [] {
      UndoTopText(d, texts);
      SameHistorySound(d, UndoTop(d), texts, saved);
    }
    if d.redo != [] {
      RedoTopText(d, texts);
      SameHistorySound(d, RedoTop(d), texts, saved);
    }
  }

  lemma {:induction false} UndoGroupKeepsSound(d: Doc, g: int, fails: set<Path>, texts: seq<string>, saved: string)
    requires Sound(d, texts, saved) && d.modifiable
    ensures Sound(UndoGroup(d, g, fails).0, texts, saved)
    decreases |d.undo|
  {
    if TopGroup(d.undo) == Some(g) {
      MoveKeepsSound(d, texts, saved);
      UndoGroupKeepsSound(UndoTop(d), g, fails, texts, saved);
    }
  }

  lemma {:induction false} RedoGroupKeepsSound(d: Doc, g: int, fails: set<Path>, texts: seq<string>, saved: string)
    requires Sound(d, texts, saved) && d.modifiable
    ensures Sound(RedoGroup(d, g, fails).0, texts, saved)
    decreases |d.redo|
  {
    if TopGroup(d.redo) == Some(g) {
      MoveKeepsSound(d, texts, saved);
      RedoGroupKeepsSound(RedoTop(d), g, fails, texts, saved);
    }
  }

  lemma UndoKeepsSound(d: Doc, fails: set<Path>, texts: seq<string>, saved: string)
    requires Sound(d, texts, saved) && d.modifiable
    ensures Sound(Undo(d, fails).0, texts, saved)
  {
    MoveKeepsSound(d, texts, saved);
    if d.undo != [] && TopGroup(d.undo).Some? {
      UndoGroupKeepsSound(UndoTop(d), TopGroup(d.undo).value, fails, texts, saved);
    }
  }

  lemma RedoKeepsSound(d: Doc, fails: set<Path>, texts: seq<string>, saved: string)
    requires Sound(d, texts, saved) && d.modifiable
    ensures Sound(Redo(d, fails).0, texts, saved)
  {
    MoveKeepsSound(d, texts, saved);
    if d.redo != [] && TopGroup(d.redo).Some? {
      RedoGroupKeepsSound(RedoTop(d), TopGroup(d.redo).value, fails, texts, saved);
    }
  }

  // ----- a buffer that refuses edits -----------------------------------------------

  /** The same document in a buffer that accepts edits. */
  function Accepting(d: Doc): Doc {
    d.(modifiable := true)
  }

  /** The same stacks; the texts and the flag may differ. */
  predicate SameStacks(d: Doc, e: Doc) {
    d.undo == e.undo && d.redo == e.redo
  }

  lemma {:induction false} UndoGroupStacks(d: Doc, e: Doc, g: int, fails: set<Path>)
    requires SameStacks(d, e)
    ensures SameStacks(UndoGroup(d, g, fails).0, UndoGroup(e, g, fails).0)
    ensures UndoGroup(d, g, fails).1 == UndoGroup(e, g, fails).1
    ensures !d.modifiable ==> UndoGroup(d, g, fails).0.text == d.text
    decreases |d.undo|
  {
    if TopGroup(d.undo) == Some(g) {
      UndoGroupStacks(UndoTop(d), UndoTop(e), g, fails);
    }
  }

  lemma {:induction false} RedoGroupStacks(d: Doc, e: Doc, g: int, fails: set<Path>)
    requires SameStacks(d, e)
    ensures SameStacks(RedoGroup(d, g, fails).0, RedoGroup(e, g, fails).0)
    ensures RedoGroup(d, g, fails).1 == RedoGroup(e, g, fails).1
    ensures !d.modifiable ==> RedoGroup(d, g, fails).0.text == d.text
    decreases |d.redo|
  {
    if TopGroup(d.redo) == Some(g) {
      RedoGroupStacks(RedoTop(d), RedoTop(e), g, fails);
    }
  }

  /** The stacks move and the outcome is reported as if the edits had been made; a
      buffer that refuses them keeps its text. */
  lemma RefusedUndo(d: Doc, fails: set<Path>)
    ensures SameStacks(Undo(d, fails).0, Undo(Accepting(d), fails).0)
    ensures Undo(d, fails).1 == Undo(Accepting(d), fails).1
    ensures !d.modifiable ==> Undo(d, fails).0.text == d.text
  {
    if d.undo != [] && TopGroup(d.undo).Some? {
      UndoGroupStacks(UndoTop(d), UndoTop(Accepting(d)), TopGroup(d.undo).value, fails);
    }
  }

  lemma RefusedRedo(d: Doc, fails: set<Path>)
    ensures SameStacks(Redo(d, fails).0, Redo(Accepting(d), fails).0)
    ensures Redo(d, fails).1 == Redo(Accepting(d), fails).1
    ensures !d.modifiable ==> Redo(d, fails).0.text == d.text
  {
    if d.redo != [] && TopGroup(d.redo).Some? {
      RedoGroupStacks(RedoTop(d), RedoTop(Accepting(d)), TopGroup(d.redo).value, fails);
    }
  }

  /** An undo or redo is not refused a change of text: the buffer accepts edits, or
      the entries that move would not have changed the text anyway. */
  predicate Takes(d: Doc, step: Step) {
    d.modifiable ||
    match step
    case UndoStep(fails) => Undo(Accepting(d), fails).0.text == d.text
    case RedoStep(fails) => Redo(Accepting(d), fails).0.text == d.text
    case _ => true
  }

  lemma AcceptingSound(d: Doc, texts: seq<string>, saved: string)
    requires Sound(d, texts, saved)
    ensures Sound(Accepting(d), texts, saved)
  {
    assert Timeline(Accepting(d)) == Timeline(d);
    SameTimelineSameStates(d, Accepting(d));
  }

  lemma UndoTakesIff(d: Doc, fails: set<Path>, texts: seq<string>, saved: string)
    requires Sound(d, texts, saved)
    ensures Sound(Undo(d, fails).0, texts, saved) <==> Takes(d, UndoStep(fails))
  {
    AcceptingSound(d, texts, saved);
    UndoKeepsSound(Accepting(d), fails, texts, saved);
    RefusedUndo(d, fails);
    UndoKeepsHistory(d, fails);
    SameHistorySound(d, Undo(d, fails).0, texts, saved);
    if d.modifiable {
      assert Accepting(d) == d;
    }
  }

  lemma RedoTakesIff(d: Doc, fails: set<Path>, texts: seq<string>, saved: string)
    requires Sound(d, texts, saved)
    ensures Sound(Redo(d, fails).0, texts, saved) <==> Takes(d, RedoStep(fails))
  {
    AcceptingSound(d, texts, saved);
    RedoKeepsSound(Accepting(d), fails, texts, saved);
    RefusedRedo(d, fails);
    RedoKeepsHistory(d, fails);
    SameHistorySound(d, Redo(d, fails).0, texts, saved);
    if d.modifiable {
      assert Accepting(d) == d;
    }
  }

  /** In every outcome, undo and redo keep the timeline, and the texts its entries lead
      between exactly when no change of text was refused. */
  lemma UndoRedoKeepTimeline(d: Doc, fails: set<Path>, texts: seq<string>, saved: string)
    requires Sound(d, texts, saved)
    ensures SameHistory(Undo(d, fails).0, d) && SameHistory(Redo(d, fails).0, d)
    ensures Sound(Undo(d, fails).0, texts, saved) <==> Takes(d, UndoStep(fails))
    ensures Sound(Redo(d, fails).0, texts, saved) <==> Takes(d, RedoStep(fails))
  {
    UndoRedoKeepHistory(d, fails);
    UndoTakesIff(d, fails, texts, saved);
    RedoTakesIff(d, fails, texts, saved);
  }

  // ----- runs --------------------------------------------------------------------

  /** A token was handed out for a recorded change. */
  predicate TokenIsRecorded(d: Doc, token: nat) {
    forall k :: 0 <= k < |d.undo| && d.undo[k].seqNo == token ==> d.undo[k].change.Recorded?
  }

  /** Edits are recorded on the text they change, by a buffer that accepts them. */
  predicate Enabled(s: Session, step: Step) {
    match step
    case Edit(c) => c.Recorded? ==> Accepted(s.doc, c.edits)
    case Merge(a, b, extra, block) =>
      Accepted(s.doc, extra) &&
      (a.Some? ==> TokenIsRecorded(s.doc, a.value)) &&
      (b.Some? ==> TokenIsRecorded(s.doc, b.value))
    case _ => true
  }

  predicate Accepted(d: Doc, edits: seq<Edits.Edit>) {
    AllRecordedOn(edits, d.text) && (edits != [] ==> d.modifiable)
  }

  /** Every step is enabled, and no undo or redo is refused a change of text. */
  predicate AllTake(s: Session, steps: seq<Step>) {
    steps == [] ||
    (AllTake(s, steps[..|steps| - 1]) &&
     Enabled(Run(s, steps[..|steps| - 1]), steps[|steps| - 1]) &&
     Takes(Run(s, steps[..|steps| - 1]).doc, steps[|steps| - 1]))
  }

  lemma PushOverKeepsSound(d: Doc, h: nat, c: Change, text: string, texts: seq<string>, saved: string)
    requires Sound(d, texts, saved) && h <= |d.undo|
    requires c.Leads(texts[h], text)
    ensures Sound(PushOver(d, h, c, text), texts[..h + 1] + [text], saved)
  {
    PushOverKeepsOrder(d, h, c, text);
    var e, texts' := PushOver(d, h, c, text), texts[..h + 1] + [text];
    var all, all' := Timeline(d), Timeline(e);
    assert all' == all[..h] + [UndoEntry(c, d.nextSeq)];
    forall i | 0 <= i < |all'| ensures all'[i].change.Leads(texts'[i], texts'[i + 1]) {
      if i < h {
        assert all[i].change.Leads(texts[i], texts[i + 1]);
      }
    }
    forall k | 0 <= k < |texts'| && d.savePoint.Some? && SeqAt(e, k) == d.savePoint.value
      ensures texts'[k] == saved
    {
      if k <= h {
        assert SeqAt(d, k) == SeqAt(e, k);
      }
    }
  }

  /** From the state that a pop leaves, the edits it took off lead back up. */
  lemma PopLeads(d: Doc, n: nat, token: Option<nat>, texts: seq<string>)
    requires Tracks(d, texts) && n <= |d.undo|
    requires token.Some? ==> TokenIsRecorded(d, token.value)
    ensures var h := Left(d, n, token);
            |texts| > |d.undo| && AllRecordedOn(EditsBetween(d, h, n), texts[h]) &&
            ApplyAll(EditsBetween(d, h, n), texts[h]) == texts[n]
  {
    var h := Left(d, n, token);
    if h < n {
      assert Timeline(d)[h] == d.undo[h] && Timeline(d)[h].change.Leads(texts[h], texts[h + 1]);
      assert EditsBetween(d, h, n) == [] + d.undo[h].change.edits == d.undo[h].change.edits;
    }
  }

  /** From the state that the pops of a merge leave, the edits they took off lead back up. */
  lemma PopsLead(d: Doc, session: Option<nat>, delete: Option<nat>, texts: seq<string>)
    requires Tracks(d, texts)
    requires session.Some? ==> TokenIsRecorded(d, session.value)
    requires delete.Some? ==> TokenIsRecorded(d, delete.value)
    ensures var h := MergeBase(d, session, delete);
            |texts| > |d.undo| && AllRecordedOn(EditsBetween(d, h, |d.undo|), texts[h]) &&
            ApplyAll(EditsBetween(d, h, |d.undo|), texts[h]) == d.text
  {
    var n := |d.undo|;
    var h1, h := Left(d, n, session), MergeBase(d, session, delete);
    PopLeads(d, n, session, texts);
    PopLeads(d, h1, delete, texts);
    EditsSplit(d, h, h1, n);
    ApplyAllConcat(EditsBetween(d, h, h1), EditsBetween(d, h1, n), texts[h]);
  }

  lemma MergedLeads(d: Doc, session: Option<nat>, delete: Option<nat>, extra: seq<Edits.Edit>, texts: seq<string>)
    requires Tracks(d, texts) && AllRecordedOn(extra, d.text)
    requires session.Some? ==> TokenIsRecorded(d, session.value)
    requires delete.Some? ==> TokenIsRecorded(d, delete.value)
    ensures var h := MergeBase(d, session, delete);
            |texts| > |d.undo| &&
            Recorded(EditsBetween(d, h, |d.undo|) + extra, None).Leads(texts[h], ApplyAll(extra, d.text))
  {
    var h := MergeBase(d, session, delete);
    PopsLead(d, session, delete, texts);
    ApplyAllConcat(EditsBetween(d, h, |d.undo|), extra, texts[h]);
  }

  /** Popping a session by token and pushing the merged change keeps every text the
      history leads between. */
  lemma MergeKeepsSound(d: Doc, session: Option<nat>, delete: Option<nat>, extra: seq<Edits.Edit>, block: bool,
                        texts: seq<string>, saved: string) returns (texts': seq<string>)
    requires Sound(d, texts, saved) && AllRecordedOn(extra, d.text)
    requires session.Some? ==> TokenIsRecorded(d, session.value)
    requires delete.Some? ==> TokenIsRecorded(d, delete.value)
    ensures Sound(MergeEntries(d, session, delete, extra, block), texts', saved)
    ensures texts'[0] == texts[0]
  {
    var n, h := |d.undo|, MergeBase(d, session, delete);
    var merged := EditsBetween(d, h, n) + extra;
    MergeShape(d, session, delete, extra, block);
    MergedLeads(d, session, delete, extra, texts);
    if block && Left(d, n, session) == n {
      texts' := texts;
    } else if block || merged != [] {
      PushOverKeepsSound(d, h, Recorded(merged, None), ApplyAll(extra, d.text), texts, saved);
      texts' := texts[..h + 1] + [ApplyAll(extra, d.text)];
    } else {
      DropKeepsSound(d, h, texts, saved);
      texts' := texts[..h + 1] + texts[n + 1..];
    }
  }

  lemma TextsAfterDrop(texts: seq<string>, h: nat, n: nat)
    requires h <= n < |texts| && texts[h] == texts[n]
    ensures var texts' := texts[..h + 1] + texts[n + 1..];
            |texts'| + n == |texts| + h &&
            forall k :: 0 <= k < |texts'| ==> texts'[k] == texts[Kept(k, h, n)]
  {
  }

  lemma DropKeepsTracks(d: Doc, h: nat, texts: seq<string>)
    requires Tracks(d, texts) && h <= |d.undo| && texts[h] == d.text
    ensures Tracks(CutBack(d, h), texts[..h + 1] + texts[|d.undo| + 1..])
  {
    var e, n := CutBack(d, h), |d.undo|;
    var texts' := texts[..h + 1] + texts[n + 1..];
    TimelineAfterDrop(d, h);
    TextsAfterDrop(texts, h, n);
    forall i | 0 <= i < |Timeline(e)| ensures Timeline(e)[i].change.Leads(texts'[i], texts'[i + 1]) {
      var i' := Kept(i, h, n);
      assert Timeline(d)[i'].change.Leads(texts[i'], texts[i' + 1]);
      assert texts'[i] == texts[i'];
      assert i + 1 == h || Kept(i + 1, h, n) == i' + 1;
    }
  }

  lemma DropKeepsSaved(d: Doc, h: nat, texts: seq<string>, saved: string)
    requires SaveSound(d, texts, saved) && h <= |d.undo| && texts[h] == texts[|d.undo|]
    ensures SaveSound(CutBack(d, h), texts[..h + 1] + texts[|d.undo| + 1..], saved)
  {
    var e, n := CutBack(d, h), |d.undo|;
    var texts' := texts[..h + 1] + texts[n + 1..];
    TimelineAfterDrop(d, h);
    forall k | 0 <= k < |texts'| && d.savePoint.Some? && SeqAt(e, k) == d.savePoint.value
      ensures texts'[k] == saved
    {
      var k' := if k <= h then k else k - h + n;
      assert k == 0 || Timeline(e)[k - 1] == Timeline(d)[k' - 1];
      assert SeqAt(d, k') == SeqAt(e, k);
    }
  }

  /** Entries that changed nothing can be dropped from the top. */
  lemma DropKeepsSound(d: Doc, h: nat, texts: seq<string>, saved: string)
    requires Sound(d, texts, saved) && h <= |d.undo| && texts[h] == d.text
    ensures Sound(CutBack(d, h), texts[..h + 1] + texts[|d.undo| + 1..], saved)
  {
    DropKeepsOrder(d, h);
    DropKeepsTracks(d, h, texts);
    DropKeepsSaved(d, h, texts, saved);
  }

  lemma GroupingKeepsSound(d: Doc, since: nat, texts: seq<string>, saved: string)
    requires Sound(d, texts, saved)
    ensures Sound(d.(undo := Grouped(d.undo, since)), texts, saved)
  {
    var e := d.(undo := Grouped(d.undo, since));
    GroupingKeepsEntries(d, since);
    var all, all' := Timeline(d), Timeline(e);
    forall i | 0 <= i < |all'|
      ensures all'[i].seqNo == all[i].seqNo && all'[i].change.Leads(texts[i], texts[i + 1])
    {
      assert all[i].change.Leads(texts[i], texts[i + 1]);
    }
    assert forall h :: 0 <= h < |texts| ==> SeqAt(e, h) == SeqAt(d, h);
  }

  lemma SavingKeepsSound(d: Doc, texts: seq<string>, saved: string)
    requires Sound(d, texts, saved)
    ensures Sound(d.(savePoint := Some(TopSeq(d))), texts, d.text)
  {
    var e := d.(savePoint := Some(TopSeq(d)));
    assert Timeline(e) == Timeline(d);
    assert TopSeq(d) == SeqAt(e, |d.undo|);
    forall h | 0 <= h < |texts| && SeqAt(e, h) == TopSeq(d) ensures h == |d.undo| {
    }
  }

  lemma EditKeepsSound(d: Doc, c: Change, texts: seq<string>, saved: string)
    requires Sound(d, texts, saved)
    requires c.Recorded? ==> AllRecordedOn(c.edits, d.text)
    ensures Sound(Push(d.(text := c.Forward(d.text)), c), texts[..|d.undo| + 1] + [c.Forward(d.text)], saved)
  {
    PushOverKeepsSound(d, |d.undo|, c, c.Forward(d.text), texts, saved);
    PushIsPushOver(d, c, c.Forward(d.text));
  }

  lemma StepKeepsSound(s: Session, step: Step, texts: seq<string>) returns (texts': seq<string>)
    requires Sound(s.doc, texts, s.lastSaved) && Enabled(s, step) && Takes(s.doc, step)
    ensures Sound(After(s, step).doc, texts', After(s, step).lastSaved)
    ensures texts'[0] == texts[0]
  {
    var d, e := s.doc, After(s, step).doc;
    texts' := texts;
    match step {
      case Edit(c) =>
        EditKeepsSound(d, c, texts, s.lastSaved);
        texts' := texts[..|d.undo| + 1] + [c.Forward(d.text)];
      case UndoStep(fails) => UndoTakesIff(d, fails, texts, s.lastSaved);
      case RedoStep(fails) => RedoTakesIff(d, fails, texts, s.lastSaved);
      case GroupStep(since) => GroupingKeepsSound(d, since, texts, s.lastSaved);
      case Save => SavingKeepsSound(d, texts, s.lastSaved);
      case ForgetSave => assert Timeline(e) == Timeline(d);
      case Merge(a, b, extra, block) => texts' := MergeKeepsSound(d, a, b, extra, block, texts, s.lastSaved);
      case SetModifiable(on) => SettingKeepsSound(d, on, texts, s.lastSaved);
    }
  }

  lemma SettingKeepsSound(d: Doc, on: bool, texts: seq<string>, saved: string)
    requires Sound(d, texts, saved)
    ensures Sound(d.(modifiable := on), texts, saved)
  {
    var e := d.(modifiable := on);
    assert Timeline(e) == Timeline(d);
    SameTimelineSameStates(d, e);
  }

  lemma {:induction false} RunKeepsSound(text: string, steps: seq<Step>) returns (texts: seq<string>)
    requires AllTake(Start(text), steps)
    ensures Sound(Run(Start(text), steps).doc, texts, Run(Start(text), steps).lastSaved)
    ensures texts[0] == text
  {
    if steps == [] {
      texts := [text];
    } else {
      var init := steps[..|steps| - 1];
      var before := RunKeepsSound(text, init);
      texts := StepKeepsSound(Run(Start(text), init), steps[|steps| - 1], before);
    }
  }

  lemma SoundAtSavePoint(d: Doc, texts: seq<string>, saved: string)
    requires Sound(d, texts, saved) && AtSavePoint(d)
    ensures d.text == saved
  {
    assert SeqAt(d, |d.undo|) == TopSeq(d);
  }

  /** The promise behind "unmodified": after any run in which no undo or redo was
      refused a change of text, being at the save point means the text is the text
      that was last saved (or loaded). */
  lemma AtSavePointMeansSavedText(text: string, steps: seq<Step>)
    requires AllTake(Start(text), steps)
    requires AtSavePoint(Run(Start(text), steps).doc)
    ensures Run(Start(text), steps).doc.text == Run(Start(text), steps).lastSaved
  {
    var texts := RunKeepsSound(text, steps);
    SoundAtSavePoint(Run(Start(text), steps).doc, texts, Run(Start(text), steps).lastSaved);
  }

  /** The text the save point stands for, where the border lands. */
  lemma SavedWhereItLands(d: Doc, e: Doc, texts: seq<string>, saved: string)
    requires Sound(d, texts, saved) && SameHistory(e, d) && AtSavePoint(e)
    ensures texts[|e.undo|] == saved
  {
    SameTimelineSameStates(d, e);
    assert SeqAt(e, |e.undo|) == TopSeq(e);
  }

  /** The first refusal breaks the promise exactly: an undo or redo that lands on the
      save point leaves the saved text if and only if it was not refused a change. */
  lemma MoveOntoSavePoint(text: string, steps: seq<Step>, step: Step)
    requires AllTake(Start(text), steps) && (step.UndoStep? || step.RedoStep?)
    requires AtSavePoint(Run(Start(text), steps + [step]).doc)
    ensures var s := Run(Start(text), steps + [step]);
            s.doc.text == s.lastSaved <==> Takes(Run(Start(text), steps).doc, step)
  {
    var texts := RunKeepsSound(text, steps);
    var s := Run(Start(text), steps);
    RunNext(Start(text), steps, step);
    MoveOntoSavePointFrom(s.doc, step, texts, s.lastSaved);
  }

  lemma MoveOntoSavePointFrom(d: Doc, step: Step, texts: seq<string>, saved: string)
    requires Sound(d, texts, saved) && (step.UndoStep? || step.RedoStep?)
    requires var e := if step.UndoStep? then Undo(d, step.fails).0 else Redo(d, step.fails).0;
             AtSavePoint(e)
    ensures var e := if step.UndoStep? then Undo(d, step.fails).0 else Redo(d, step.fails).0;
            e.text == saved <==> Takes(d, step)
  {
    var e := if step.UndoStep? then Undo(d, step.fails).0 else Redo(d, step.fails).0;
    UndoRedoKeepTimeline(d, step.fails, texts, saved);
    SavedWhereItLands(d, e, texts, saved);
    SameHistorySound(d, e, texts, saved);
  }

  /** It can happen: type "a", set `nomodifiable`, undo. The entry moves, the text stays,
      and the buffer counts as saved. */
  lemma RefusedUndoForgesSavePoint()
    ensures var typed := Recorded([Insert(0, "a")], None);
            var s := After(After(After(Start(""), Step.Edit(typed)), SetModifiable(false)), UndoStep({}));
            Enabled(Start(""), Step.Edit(typed)) && AtSavePoint(s.doc) && s.doc.text == "a" && s.lastSaved == ""
  {
    var typed := Recorded([Insert(0, "a")], None);
    var edits := [Insert(0, "a")];
    assert edits[..0] == [];
    assert ApplyAll(edits, "") == edits[0].Apply(ApplyAll(edits[..0], "")) == "a";
    assert AllRecordedOn(edits, "");
  }
}
