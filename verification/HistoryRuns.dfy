/** Runs of the change history: every command as a step on values, what all of
    them keep of the entries on both stacks, and what a change token redeems
    (ovim-core/src/change.rs). */
module HistoryRuns {
  import opened Basics
  import opened Edits
  import opened History

  function Reverse<T>(s: seq<T>): (r: seq<T>)
    ensures |r| == |s|
    ensures forall k :: 0 <= k < |s| ==> r[k] == s[|s| - 1 - k]
  {
    if s == [] then [] else Reverse(s[1..]) + [s[0]]
  }

  /** Every entry of both stacks, oldest first. */
  function Timeline(d: Doc): (r: seq<UndoEntry>)
    ensures |r| == |d.undo| + |d.redo|
    ensures forall k :: 0 <= k < |d.undo| ==> r[k] == d.undo[k]
    ensures forall k :: |d.undo| <= k < |r| ==> r[k] == d.redo[|r| - 1 - k]
  {
    d.undo + Reverse(d.redo)
  }

  lemma UndoKeepsTimeline(d: Doc)
    requires d.undo != []
    ensures Timeline(UndoTop(d)) == Timeline(d)
  {
    var e, t, u := UndoTop(d), Timeline(UndoTop(d)), Timeline(d);
    forall k | 0 <= k < |u| ensures t[k] == u[k] {
      if k >= |e.undo| {
        assert t[k] == e.redo[|e.redo| - 1 - (k - |e.undo|)];
        if k >= |d.undo| {
          assert u[k] == d.redo[|d.redo| - 1 - (k - |d.undo|)];
        }
      }
    }
  }

  lemma RedoKeepsTimeline(d: Doc)
    requires d.redo != []
    ensures Timeline(RedoTop(d)) == Timeline(d)
  {
    var e, t, u := RedoTop(d), Timeline(RedoTop(d)), Timeline(d);
    forall k | 0 <= k < |u| ensures t[k] == u[k] {
      if k >= |d.undo| {
        assert u[k] == d.redo[|d.redo| - 1 - (k - |d.undo|)];
        if k >= |e.undo| {
          assert t[k] == e.redo[|e.redo| - 1 - (k - |e.undo|)];
        }
      }
    }
  }

  /** The same entries, numbers and settings; the text and the border between the
      stacks may differ. */
  predicate SameHistory(d: Doc, e: Doc) {
    Timeline(d) == Timeline(e) && d.nextSeq == e.nextSeq && d.savePoint == e.savePoint && d.modifiable == e.modifiable
  }

  /** Undo and redo only move the border between the stacks. */
  lemma MovesKeepHistory(d: Doc)
    ensures d.undo != [] ==> SameHistory(UndoTop(d), d)
    ensures d.redo != [] ==> SameHistory(RedoTop(d), d)
  {
    if d.undo != [] {
      UndoKeepsTimeline(d);
    }
    if d.redo != [] {
      RedoKeepsTimeline(d);
    }
  }

  lemma {:induction false} UndoGroupKeepsHistory(d: Doc, g: int, fails: set<Path>)
    ensures SameHistory(UndoGroup(d, g, fails).0, d)
    decreases |d.undo|
  {
    if TopGroup(d.undo) == Some(g) {
      MovesKeepHistory(d);
      UndoGroupKeepsHistory(UndoTop(d), g, fails);
    }
  }

  lemma {:induction false} RedoGroupKeepsHistory(d: Doc, g: int, fails: set<Path>)
    ensures SameHistory(RedoGroup(d, g, fails).0, d)
    decreases |d.redo|
  {
    if TopGroup(d.redo) == Some(g) {
      MovesKeepHistory(d);
      RedoGroupKeepsHistory(RedoTop(d), g, fails);
    }
  }

  lemma UndoKeepsHistory(d: Doc, fails: set<Path>)
    ensures SameHistory(Undo(d, fails).0, d)
  {
    MovesKeepHistory(d);
    if d.undo != [] && TopGroup(d.undo).Some? {
      UndoGroupKeepsHistory(UndoTop(d), TopGroup(d.undo).value, fails);
    }
  }

  lemma RedoKeepsHistory(d: Doc, fails: set<Path>)
    ensures SameHistory(Redo(d, fails).0, d)
  {
    MovesKeepHistory(d);
    if d.redo != [] && TopGroup(d.redo).Some? {
      RedoGroupKeepsHistory(RedoTop(d), TopGroup(d.redo).value, fails);
    }
  }

  /** In every outcome, on a buffer that accepts edits or refuses them, undo and redo
      keep every entry in its place. */
  lemma UndoRedoKeepHistory(d: Doc, fails: set<Path>)
    ensures SameHistory(Undo(d, fails).0, d) && SameHistory(Redo(d, fails).0, d)
  {
    UndoKeepsHistory(d, fails);
    RedoKeepsHistory(d, fails);
  }

  /** No failure can strike inside a group: grouped entries are recorded ones. */
  lemma {:induction false} UndoGroupCompletes(d: Doc, g: int, fails: set<Path>)
    ensures UndoGroup(d, g, fails).1 == Done
    decreases |d.undo|
  {
    if TopGroup(d.undo) == Some(g) {
      UndoGroupCompletes(UndoTop(d), g, fails);
    }
  }

  lemma {:induction false} RedoGroupCompletes(d: Doc, g: int, fails: set<Path>)
    ensures RedoGroup(d, g, fails).1 == Done
    decreases |d.redo|
  {
    if TopGroup(d.redo) == Some(g) {
      RedoGroupCompletes(RedoTop(d), g, fails);
    }
  }

  // ----- runs --------------------------------------------------------------

  /** Leaving a multi-phase insert: the session's entry and the delete's entry
      are popped by token, further edits are made, and one merged entry is
      pushed (a block replay always pushes, a change only if edits remain). */
  datatype Step =
    | Edit(change: Change)
    | UndoStep(fails: set<Path>)
    | RedoStep(fails: set<Path>)
    | GroupStep(since: nat)
    | Save
    | ForgetSave
    | Merge(session: Option<nat>, delete: Option<nat>, extra: seq<Edits.Edit>, block: bool)
    | SetModifiable(on: bool)

  /** A document, and the text at its last save (at first, the loaded text). */
  datatype Session = Session(doc: Doc, lastSaved: string)

  function Start(text: string): Session {
    Session(NewDoc(text), text)
  }

  function PopOptional(d: Doc, token: Option<nat>): (Doc, Option<Change>) {
    if token.None? then (d, None) else PopByToken(d, token.value)
  }

  function EditsOf(c: Option<Change>): seq<Edits.Edit> {
    if c.Some? && c.value.Recorded? then c.value.edits else []
  }

  function MergeEntries(d: Doc, session: Option<nat>, delete: Option<nat>, extra: seq<Edits.Edit>, block: bool): Doc {
    var (d1, insert) := PopOptional(d, session);
    if block && insert.None? then d
    else
      var (d2, deletion) := PopOptional(d1, delete);
      var merged := EditsOf(deletion) + EditsOf(insert) + extra;
      var d3 := d2.(text := ApplyAll(extra, d.text));
      if block || merged != [] then Push(d3, Recorded(merged, None)) else d3
  }

  function After(s: Session, step: Step): Session {
    match step
    case Edit(c) => s.(doc := Push(s.doc.(text := c.Forward(s.doc.text)), c))
    case UndoStep(fails) => s.(doc := Undo(s.doc, fails).0)
    case RedoStep(fails) => s.(doc := Redo(s.doc, fails).0)
    case GroupStep(since) => s.(doc := s.doc.(undo := Grouped(s.doc.undo, since)))
    case Save => Session(s.doc.(savePoint := Some(TopSeq(s.doc))), s.doc.text)
    case ForgetSave => s.(doc := s.doc.(savePoint := None))
    case Merge(a, b, extra, block) => s.(doc := MergeEntries(s.doc, a, b, extra, block))
    case SetModifiable(on) => s.(doc := s.doc.(modifiable := on))
  }

  function Run(s: Session, steps: seq<Step>): Session {
    if steps == [] then s else After(Run(s, steps[..|steps| - 1]), steps[|steps| - 1])
  }

  lemma RunNext(s: Session, steps: seq<Step>, step: Step)
    ensures Run(s, steps + [step]) == After(Run(s, steps), step)
  {
    assert (steps + [step])[..|steps|] == steps;
  }

  /** The history cut back to `h` entries, with one new entry on top. */
  function PushOver(d: Doc, h: nat, c: Change, text: string): Doc
    requires h <= |d.undo|
  {
    Doc(text, d.undo[..h] + [UndoEntry(c, d.nextSeq)], [], d.savePoint, d.nextSeq + 1, d.modifiable)
  }

  /** The history cut back to `h` entries. */
  function CutBack(d: Doc, h: nat): Doc
    requires h <= |d.undo|
  {
    d.(undo := d.undo[..h])
  }

  lemma PushIsPushOver(d: Doc, c: Change, text: string)
    ensures Push(d.(text := text), c) == PushOver(d, |d.undo|, c, text)
  {
    assert d.undo[..|d.undo|] == d.undo;
  }

  // ----- what a merge leaves ---------------------------------------------------

  /** How many of the first `n` entries an optional pop leaves. */
  function Left(d: Doc, n: nat, token: Option<nat>): (h: nat)
    requires n <= |d.undo|
    ensures h <= n <= h + 1
  {
    if n > 0 && token == Some(d.undo[n - 1].seqNo) && d.undo[n - 1].seqNo != 0 then n - 1 else n
  }

  /** How many entries the pops of a merge leave. */
  function MergeBase(d: Doc, session: Option<nat>, delete: Option<nat>): (h: nat)
    ensures h <= |d.undo|
  {
    Left(d, Left(d, |d.undo|, session), delete)
  }

  function EntryEdits(d: Doc, k: nat): seq<Edits.Edit>
    requires k < |d.undo|
  {
    EditsOf(Some(d.undo[k].change))
  }

  /** The edits of entries `h` to `n`, of which there are at most two. */
  function EditsBetween(d: Doc, h: nat, n: nat): seq<Edits.Edit>
    requires h <= n <= |d.undo|
  {
    if h == n then [] else EditsBetween(d, h, n - 1) + EntryEdits(d, n - 1)
  }

  lemma PopIsCut(d: Doc, n: nat, token: Option<nat>)
    requires n <= |d.undo|
    ensures var (e, change) := PopOptional(CutBack(d, n), token);
            e == CutBack(d, Left(d, n, token)) && EditsOf(change) == EditsBetween(d, Left(d, n, token), n)
  {
    if n > 0 {
      assert d.undo[..n][..n - 1] == d.undo[..n - 1];
    }
  }

  lemma {:induction false} EditsSplit(d: Doc, h: nat, m: nat, n: nat)
    requires h <= m <= n <= |d.undo|
    ensures EditsBetween(d, h, n) == EditsBetween(d, h, m) + EditsBetween(d, m, n)
  {
    if m < n {
      EditsSplit(d, h, m, n - 1);
      Associate(EditsBetween(d, h, m), EditsBetween(d, m, n - 1), EntryEdits(d, n - 1));
    }
  }

  lemma MergePops(d: Doc, session: Option<nat>, delete: Option<nat>)
    ensures var (d1, insert) := PopOptional(d, session);
            var (d2, deletion) := PopOptional(d1, delete);
            d2 == CutBack(d, MergeBase(d, session, delete)) &&
            EditsOf(deletion) + EditsOf(insert) == EditsBetween(d, MergeBase(d, session, delete), |d.undo|) &&
            (insert.None? <==> Left(d, |d.undo|, session) == |d.undo|)
  {
    var n, h1 := |d.undo|, Left(d, |d.undo|, session);
    assert CutBack(d, n) == d;
    PopIsCut(d, n, session);
    PopIsCut(d, h1, delete);
    EditsSplit(d, MergeBase(d, session, delete), h1, n);
  }

  /** A merge does nothing, pushes one entry over those it leaves, or just takes
      entries off that have no edits. */
  lemma MergeShape(d: Doc, session: Option<nat>, delete: Option<nat>, extra: seq<Edits.Edit>, block: bool)
    ensures var h, e := MergeBase(d, session, delete), MergeEntries(d, session, delete, extra, block);
            var merged := EditsBetween(d, h, |d.undo|) + extra;
            e == if block && Left(d, |d.undo|, session) == |d.undo| then d
                 else if block || merged != [] then PushOver(d, h, Recorded(merged, None), ApplyAll(extra, d.text))
                 else CutBack(d, h)
  {
    MergePops(d, session, delete);
  }

  // ----- numbers -----------------------------------------------------------------

  /** Sequence numbers on the stacks ascend, and none is still to be given out. */
  predicate Ordered(d: Doc) {
    var all := Timeline(d);
    (forall i, j :: 0 <= i < j < |all| ==> all[i].seqNo < all[j].seqNo) &&
    (forall i :: 0 <= i < |all| ==> 1 <= all[i].seqNo < d.nextSeq) &&
    d.nextSeq >= 1 &&
    (d.savePoint.Some? ==> d.savePoint.value < d.nextSeq)
  }

  lemma PushOverKeepsOrder(d: Doc, h: nat, c: Change, text: string)
    requires Ordered(d) && h <= |d.undo|
    ensures Ordered(PushOver(d, h, c, text))
  {
    assert Timeline(PushOver(d, h, c, text)) == Timeline(d)[..h] + [UndoEntry(c, d.nextSeq)];
  }

  /** Where position `k` of a list stood before positions `h..n` were cut out. */
  function Kept(k: nat, h: nat, n: nat): nat
    requires h <= n
  {
    if k < h then k else k - h + n
  }

  lemma TimelineAfterDrop(d: Doc, h: nat)
    requires h <= |d.undo|
    ensures var e := d.(undo := d.undo[..h]);
            |Timeline(e)| + |d.undo| == |Timeline(d)| + h &&
            forall k :: 0 <= k < |Timeline(e)| ==> Timeline(e)[k] == Timeline(d)[Kept(k, h, |d.undo|)]
  {
  }

  lemma DropKeepsOrder(d: Doc, h: nat)
    requires Ordered(d) && h <= |d.undo|
    ensures Ordered(CutBack(d, h))
  {
    TimelineAfterDrop(d, h);
  }

  /** Marking keeps every entry, but for its group. */
  lemma GroupingKeepsEntries(d: Doc, since: nat)
    ensures var e := d.(undo := Grouped(d.undo, since));
            |Timeline(e)| == |Timeline(d)| &&
            forall k :: 0 <= k < |Timeline(e)| ==> SameEntry(Timeline(e)[k], Timeline(d)[k])
  {
  }

  predicate SameEntry(a: UndoEntry, b: UndoEntry) {
    a.seqNo == b.seqNo && SameButGroup(a.change, b.change)
  }

  predicate SameButGroup(a: Change, b: Change) {
    a == b || (a.Recorded? && b.Recorded? && a.edits == b.edits)
  }

  lemma MergeKeepsOrder(d: Doc, session: Option<nat>, delete: Option<nat>, extra: seq<Edits.Edit>, block: bool)
    requires Ordered(d)
    ensures Ordered(MergeEntries(d, session, delete, extra, block))
  {
    var h := MergeBase(d, session, delete);
    MergeShape(d, session, delete, extra, block);
    PushOverKeepsOrder(d, h, Recorded(EditsBetween(d, h, |d.undo|) + extra, None), ApplyAll(extra, d.text));
    DropKeepsOrder(d, h);
  }

  lemma StepKeepsOrder(s: Session, step: Step)
    requires Ordered(s.doc)
    ensures Ordered(After(s, step).doc) && After(s, step).doc.nextSeq >= s.doc.nextSeq
  {
    var d := s.doc;
    match step {
      case Edit(c) =>
        PushIsPushOver(d, c, c.Forward(d.text));
        PushOverKeepsOrder(d, |d.undo|, c, c.Forward(d.text));
      case UndoStep(fails) => UndoRedoKeepHistory(d, fails);
      case RedoStep(fails) => UndoRedoKeepHistory(d, fails);
      case GroupStep(since) => GroupingKeepsEntries(d, since);
      case Save => SaveKeepsOrder(d);
      case ForgetSave => assert Timeline(After(s, step).doc) == Timeline(d);
      case Merge(a, b, extra, block) =>
        MergeKeepsOrder(d, a, b, extra, block);
        MergeShape(d, a, b, extra, block);
      case SetModifiable(on) => assert Timeline(After(s, step).doc) == Timeline(d);
    }
  }

  lemma SaveKeepsOrder(d: Doc)
    requires Ordered(d)
    ensures Ordered(d.(savePoint := Some(TopSeq(d))))
  {
    var e := d.(savePoint := Some(TopSeq(d)));
    assert Timeline(e) == Timeline(d);
    if d.undo != [] {
      assert Timeline(d)[|d.undo| - 1] == d.undo[|d.undo| - 1];
    }
  }

  lemma {:induction false} RunKeepsOrder(text: string, steps: seq<Step>)
    ensures Ordered(Run(Start(text), steps).doc)
  {
    if steps != [] {
      RunKeepsOrder(text, steps[..|steps| - 1]);
      StepKeepsOrder(Run(Start(text), steps[..|steps| - 1]), steps[|steps| - 1]);
    }
  }

  lemma EntriesAreOnTimeline(d: Doc, e: UndoEntry)
    requires e in d.undo || e in d.redo
    ensures exists k :: 0 <= k < |Timeline(d)| && Timeline(d)[k] == e
  {
    if e in d.undo {
      var k :| 0 <= k < |d.undo| && d.undo[k] == e;
      assert Timeline(d)[k] == e;
    } else {
      var k :| 0 <= k < |d.redo| && d.redo[k] == e;
      assert Timeline(d)[|Timeline(d)| - 1 - k] == e;
    }
  }

  /** Sequence numbers are never reused, whatever the steps: the next entry's number
      is above every number on either stack. */
  lemma NextNumberIsFresh(text: string, steps: seq<Step>)
    ensures var d := Run(Start(text), steps).doc;
            Ordered(d) && forall e :: e in d.undo || e in d.redo ==> 1 <= e.seqNo < d.nextSeq
  {
    RunKeepsOrder(text, steps);
    var d := Run(Start(text), steps).doc;
    forall e | e in d.undo || e in d.redo ensures 1 <= e.seqNo < d.nextSeq {
      EntriesAreOnTimeline(d, e);
    }
  }

  // ----- tokens --------------------------------------------------------------

  /** Every change ever pushed by a run, in order: number `n` is at `n - 1`. */
  function Ledger(s: Session, steps: seq<Step>): seq<Change> {
    if steps == [] then []
    else
      Noted(Run(s, steps[..|steps| - 1]).doc, Run(s, steps).doc, Ledger(s, steps[..|steps| - 1]))
  }

  /** A step that gave out a number pushed the change now on top. */
  function Noted(before: Doc, after: Doc, ledger: seq<Change>): seq<Change> {
    if after.nextSeq > before.nextSeq && after.undo != []
    then ledger + [after.undo[|after.undo| - 1].change] else ledger
  }

  predicate Ledgered(d: Doc, ledger: seq<Change>) {
    |ledger| == d.nextSeq - 1 && Ordered(d) &&
    forall k :: 0 <= k < |Timeline(d)| ==> SameButGroup(Timeline(d)[k].change, ledger[Timeline(d)[k].seqNo - 1])
  }

  lemma SameEntriesKeepLedger(d: Doc, e: Doc, ledger: seq<Change>)
    requires Ledgered(d, ledger) && Ordered(e) && d.nextSeq == e.nextSeq
    requires |Timeline(e)| == |Timeline(d)|
    requires forall k :: 0 <= k < |Timeline(e)| ==> SameEntry(Timeline(e)[k], Timeline(d)[k])
    ensures Ledgered(e, ledger)
  {
  }

  lemma PushKeepsLedger(d: Doc, h: nat, c: Change, text: string, ledger: seq<Change>)
    requires Ledgered(d, ledger) && h <= |d.undo|
    ensures Ledgered(PushOver(d, h, c, text), ledger + [c])
  {
    PushOverKeepsOrder(d, h, c, text);
    assert Timeline(PushOver(d, h, c, text)) == Timeline(d)[..h] + [UndoEntry(c, d.nextSeq)];
  }

  lemma DropKeepsLedger(d: Doc, h: nat, ledger: seq<Change>)
    requires Ledgered(d, ledger) && h <= |d.undo|
    ensures Ledgered(CutBack(d, h), ledger)
  {
    TimelineAfterDrop(d, h);
    DropKeepsOrder(d, h);
  }

  /** A merge leaves the document, or one with a new entry on top, or one cut back. */
  lemma ShapeKeepsLedger(d: Doc, e: Doc, h: nat, c: Change, text: string, ledger: seq<Change>)
    requires Ledgered(d, ledger) && h <= |d.undo|
    requires e == d || e == PushOver(d, h, c, text) || e == CutBack(d, h)
    ensures Ledgered(e, Noted(d, e, ledger))
  {
    if e == PushOver(d, h, c, text) {
      PushKeepsLedger(d, h, c, text, ledger);
    } else if e == CutBack(d, h) {
      DropKeepsLedger(d, h, ledger);
    }
  }

  lemma MergeKeepsLedger(d: Doc, session: Option<nat>, delete: Option<nat>, extra: seq<Edits.Edit>, block: bool,
                         ledger: seq<Change>)
    requires Ledgered(d, ledger)
    ensures var e := MergeEntries(d, session, delete, extra, block);
            Ledgered(e, Noted(d, e, ledger))
  {
    var h := MergeBase(d, session, delete);
    MergeShape(d, session, delete, extra, block);
    ShapeKeepsLedger(d, MergeEntries(d, session, delete, extra, block), h,
                     Recorded(EditsBetween(d, h, |d.undo|) + extra, None), ApplyAll(extra, d.text), ledger);
  }

  /** Steps that push nothing keep every entry, but for its group. */
  lemma QuietStepKeepsEntries(s: Session, step: Step)
    requires !step.Edit? && !step.Merge?
    ensures var d, e := s.doc, After(s, step).doc;
            e.nextSeq == d.nextSeq && |Timeline(e)| == |Timeline(d)| &&
            forall k :: 0 <= k < |Timeline(e)| ==> SameEntry(Timeline(e)[k], Timeline(d)[k])
  {
    if step.UndoStep? || step.RedoStep? {
      UndoRedoKeepHistory(s.doc, step.fails);
    } else if step.GroupStep? {
      GroupingKeepsEntries(s.doc, step.since);
    } else {
      assert Timeline(After(s, step).doc) == Timeline(s.doc);
    }
  }

  lemma StepKeepsLedger(s: Session, step: Step, ledger: seq<Change>)
    requires Ledgered(s.doc, ledger)
    ensures Ledgered(After(s, step).doc, Noted(s.doc, After(s, step).doc, ledger))
  {
    var d, e := s.doc, After(s, step).doc;
    if step.Edit? {
      PushIsPushOver(d, step.change, e.text);
      PushKeepsLedger(d, |d.undo|, step.change, e.text, ledger);
    } else if step.Merge? {
      MergeKeepsLedger(d, step.session, step.delete, step.extra, step.block, ledger);
    } else {
      StepKeepsOrder(s, step);
      QuietStepKeepsEntries(s, step);
      SameEntriesKeepLedger(d, e, ledger);
    }
  }

  lemma {:induction false} RunKeepsLedger(text: string, steps: seq<Step>)
    ensures Ledgered(Run(Start(text), steps).doc, Ledger(Start(text), steps))
    decreases |steps|
  {
    if steps != [] {
      var init := steps[..|steps| - 1];
      RunKeepsLedger(text, init);
      StepKeepsLedger(Run(Start(text), init), steps[|steps| - 1], Ledger(Start(text), init));
    }
  }

  lemma PoppedIsNoted(d: Doc, token: nat, ledger: seq<Change>)
    requires Ledgered(d, ledger) && PopByToken(d, token).1.Some?
    ensures 1 <= token <= |ledger| && SameButGroup(PopByToken(d, token).1.value, ledger[token - 1])
  {
    assert Timeline(d)[|d.undo| - 1] == d.undo[|d.undo| - 1];
  }

  /** A token redeems the very change it was given out for, in every later
      state, or nothing at all: never a change that came to its place since. */
  lemma TokenRedeemsItsOwnChange(text: string, steps: seq<Step>, token: nat)
    ensures var popped := PopByToken(Run(Start(text), steps).doc, token).1;
            popped.Some? ==>
              1 <= token <= |Ledger(Start(text), steps)| &&
              SameButGroup(popped.value, Ledger(Start(text), steps)[token - 1])
  {
    RunKeepsLedger(text, steps);
    if PopByToken(Run(Start(text), steps).doc, token).1.Some? {
      PoppedIsNoted(Run(Start(text), steps).doc, token, Ledger(Start(text), steps));
    }
  }
}
