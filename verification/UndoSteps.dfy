/** How far one undo or redo goes, and that a marked stretch of changes is one undo step
    (ovim-core/src/change.rs). */
module UndoSteps {
  import opened Basics
  import opened Edits
  import opened History
  import opened HistoryRuns
  import opened SavePoints

  // ----- what one step takes --------------------------------------------------------

  /** The entries from `h` on are all of group `g`, and the one below them is not. */
  predicate GroupFills(stack: seq<UndoEntry>, h: nat, g: int) {
    h <= |stack| && TopGroup(stack[..h]) != Some(g) &&
    forall k :: h <= k < |stack| ==> stack[k].change.UndoGroup() == Some(g)
  }

  /** One step takes the top entry off and, if it has a group, all that follow of that
      group. */
  predicate TakesOneStep(stack: seq<UndoEntry>, left: seq<UndoEntry>) {
    stack != [] && |left| < |stack| && left == stack[..|left|] &&
    match stack[|stack| - 1].change.UndoGroup()
    case None => |left| == |stack| - 1
    case Some(g) => GroupFills(stack, |left|, g)
  }

  lemma {:induction false} UndoGroupTakes(d: Doc, g: int, fails: set<Path>)
    ensures var left := UndoGroup(d, g, fails).0.undo;
            |left| <= |d.undo| && left == d.undo[..|left|] && GroupFills(d.undo, |left|, g)
    decreases |d.undo|
  {
    if TopGroup(d.undo) == Some(g) {
      UndoGroupTakes(UndoTop(d), g, fails);
      var left := UndoGroup(d, g, fails).0.undo;
      assert UndoTop(d).undo[..|left|] == d.undo[..|left|];
    } else {
      assert d.undo[..|d.undo|] == d.undo;
    }
  }

  lemma {:induction false} RedoGroupTakes(d: Doc, g: int, fails: set<Path>)
    ensures var left := RedoGroup(d, g, fails).0.redo;
            |left| <= |d.redo| && left == d.redo[..|left|] && GroupFills(d.redo, |left|, g)
    decreases |d.redo|
  {
    if TopGroup(d.redo) == Some(g) {
      RedoGroupTakes(RedoTop(d), g, fails);
      var left := RedoGroup(d, g, fails).0.redo;
      assert RedoTop(d).redo[..|left|] == d.redo[..|left|];
    } else {
      assert d.redo[..|d.redo|] == d.redo;
    }
  }

  /** Whether the top of a stack can be moved, and what is left of the stack then. */
  predicate StepsTo(stack: seq<UndoEntry>, fails: set<Path>, left: seq<UndoEntry>, outcome: UndoOutcome) {
    match outcome
    case Nothing => stack == [] == left
    case Failed => stack != [] && !stack[|stack| - 1].change.Restorable(fails) && left == stack
    case Done => stack != [] && stack[|stack| - 1].change.Restorable(fails) && TakesOneStep(stack, left)
  }

  lemma GroupFillsOneMore(stack: seq<UndoEntry>, h: nat, g: int)
    requires stack != [] && stack[|stack| - 1].change.UndoGroup() == Some(g)
    requires GroupFills(stack[..|stack| - 1], h, g)
    ensures GroupFills(stack, h, g)
  {
    assert stack[..|stack| - 1][..h] == stack[..h];
  }

  /** Undo does nothing exactly on an empty stack, fails exactly when the top entry cannot be
      restored, and otherwise takes the whole group on top and not one entry more. */
  lemma UndoStepsExactly(d: Doc, fails: set<Path>)
    ensures StepsTo(d.undo, fails, Undo(d, fails).0.undo, Undo(d, fails).1)
  {
    if d.undo != [] && d.undo[|d.undo| - 1].change.Restorable(fails) && TopGroup(d.undo).Some? {
      var g := TopGroup(d.undo).value;
      UndoGroupTakes(UndoTop(d), g, fails);
      UndoGroupCompletes(UndoTop(d), g, fails);
      var left := UndoGroup(UndoTop(d), g, fails).0.undo;
      GroupFillsOneMore(d.undo, |left|, g);
      assert UndoTop(d).undo[..|left|] == d.undo[..|left|];
    }
  }

  lemma RedoStepsExactly(d: Doc, fails: set<Path>)
    ensures StepsTo(d.redo, fails, Redo(d, fails).0.redo, Redo(d, fails).1)
  {
    if d.redo != [] && d.redo[|d.redo| - 1].change.Restorable(fails) && TopGroup(d.redo).Some? {
      var g := TopGroup(d.redo).value;
      RedoGroupTakes(RedoTop(d), g, fails);
      RedoGroupCompletes(RedoTop(d), g, fails);
      var left := RedoGroup(RedoTop(d), g, fails).0.redo;
      GroupFillsOneMore(d.redo, |left|, g);
      assert RedoTop(d).redo[..|left|] == d.redo[..|left|];
    }
  }

  // ----- marking -------------------------------------------------------------------------

  predicate Ascending(stack: seq<UndoEntry>) {
    forall i, j :: 0 <= i < j < |stack| ==> stack[i].seqNo < stack[j].seqNo
  }

  /** What marking makes of one entry: a recorded change above the mark gets the group of
      the mark, any other entry stays as it is. */
  predicate MarkedAs(before: UndoEntry, after: UndoEntry, since: nat) {
    after.seqNo == before.seqNo &&
    if before.seqNo > since && before.change.Recorded? then
      after.change.Recorded? && after.change.edits == before.change.edits &&
      after.change.UndoGroup() == Some(0xFFFF_FFFF_FFFF_FFFF - since)
    else after.change == before.change
  }

  lemma {:induction false} GroupedExactly(undo: seq<UndoEntry>, since: nat)
    requires Ascending(undo)
    ensures forall k :: 0 <= k < |undo| ==> MarkedAs(undo[k], Grouped(undo, since)[k], since)
  {
    if undo != [] && undo[|undo| - 1].seqNo > since {
      GroupedExactly(undo[..|undo| - 1], since);
    }
  }

  // ----- a turn is one undo step -----------------------------------------------------------

  /** The document after more changes, each with a number of its own. */
  function PushAll(d: Doc, changes: seq<Change>): Doc {
    if changes == [] then d
    else
      var before, c := PushAll(d, changes[..|changes| - 1]), changes[|changes| - 1];
      Push(before.(text := c.Forward(before.text)), c)
  }

  /** Each change is recorded on the text it changes. */
  predicate AllRecorded(d: Doc, changes: seq<Change>) {
    changes == [] ||
    (AllRecorded(d, changes[..|changes| - 1]) && changes[|changes| - 1].Recorded? &&
     AllRecordedOn(changes[|changes| - 1].edits, PushAll(d, changes[..|changes| - 1]).text))
  }

  /** The new entries are numbered from `first` on, and recorded ones. */
  predicate NewAbove(stack: seq<UndoEntry>, n: nat, first: nat) {
    forall k :: n <= k < |stack| ==> stack[k].seqNo >= first && stack[k].change.Recorded?
  }

  /** The stack is the old one with an entry for each change on top. */
  predicate Atop(d: Doc, e: Doc, n: nat) {
    |e.undo| == |d.undo| + n && e.undo[..|d.undo|] == d.undo && NewAbove(e.undo, |d.undo|, d.nextSeq) &&
    e.modifiable == d.modifiable && e.nextSeq == d.nextSeq + n
  }

  lemma PushIsAtop(d: Doc, e: Doc, n: nat, c: Change, text: string)
    requires Atop(d, e, n) && c.Recorded?
    ensures Atop(d, Push(e.(text := text), c), n + 1)
  {
    assert Push(e.(text := text), c).undo[..|d.undo|] == e.undo[..|d.undo|];
  }

  lemma {:induction false} PushAllIsAtop(d: Doc, changes: seq<Change>)
    requires AllRecorded(d, changes)
    ensures Atop(d, PushAll(d, changes), |changes|)
  {
    if changes == [] {
      assert d.undo[..|d.undo|] == d.undo;
    } else {
      var init, c := changes[..|changes| - 1], changes[|changes| - 1];
      PushAllIsAtop(d, init);
      PushIsAtop(d, PushAll(d, init), |init|, c, c.Forward(PushAll(d, init).text));
    }
  }

  lemma {:induction false} PushAllKeepsOrder(d: Doc, changes: seq<Change>)
    requires Ordered(d)
    ensures Ordered(PushAll(d, changes))
  {
    if changes != [] {
      var before, c := PushAll(d, changes[..|changes| - 1]), changes[|changes| - 1];
      PushAllKeepsOrder(d, changes[..|changes| - 1]);
      PushIsPushOver(before, c, c.Forward(before.text));
      PushOverKeepsOrder(before, |before.undo|, c, c.Forward(before.text));
    }
  }

  /** The same texts up to state `n`. */
  predicate SamePast(a: seq<string>, b: seq<string>, n: nat) {
    n < |a| && n < |b| && forall k :: 0 <= k <= n ==> a[k] == b[k]
  }

  lemma {:induction false} PushAllKeepsSound(d: Doc, changes: seq<Change>, texts: seq<string>, saved: string)
    returns (texts': seq<string>)
    requires Sound(d, texts, saved) && AllRecorded(d, changes)
    ensures Sound(PushAll(d, changes), texts', saved) && SamePast(texts, texts', |d.undo|)
  {
    if changes == [] {
      texts' := texts;
    } else {
      var init, c := changes[..|changes| - 1], changes[|changes| - 1];
      var e := PushAll(d, init);
      var t := PushAllKeepsSound(d, init, texts, saved);
      PushAllIsAtop(d, init);
      EditKeepsSound(e, c, t, saved);
      texts' := t[..|e.undo| + 1] + [c.Forward(e.text)];
    }
  }

  /** After a turn, everything pushed since the mark in one group. */
  function Turn(d: Doc, changes: seq<Change>): Doc {
    var e := PushAll(d, changes);
    e.(undo := Grouped(e.undo, TopSeq(d)))
  }

  lemma OrderedAscends(d: Doc)
    requires Ordered(d)
    ensures Ascending(d.undo) && TopSeq(d) < d.nextSeq
    ensures forall k :: 0 <= k < |d.undo| ==> d.undo[k].seqNo <= TopSeq(d)
  {
    forall i, j | 0 <= i < j < |d.undo| ensures d.undo[i].seqNo < d.undo[j].seqNo {
      assert Timeline(d)[i] == d.undo[i] && Timeline(d)[j] == d.undo[j];
    }
    if d.undo != [] {
      assert Timeline(d)[|d.undo| - 1] == d.undo[|d.undo| - 1];
    }
  }

  lemma MarkedAbove(d: Doc, e: Doc, n: nat, since: nat)
    requires Atop(d, e, n) && Ascending(e.undo) && since < d.nextSeq
    requires forall k :: 0 <= k < |d.undo| ==> d.undo[k].seqNo <= since
    ensures |Grouped(e.undo, since)| == |d.undo| + n && Grouped(e.undo, since)[..|d.undo|] == d.undo
    ensures forall k :: |d.undo| <= k < |e.undo| ==>
              Grouped(e.undo, since)[k].change.UndoGroup() == Some(0xFFFF_FFFF_FFFF_FFFF - since)
  {
    var r := Grouped(e.undo, since);
    GroupedExactly(e.undo, since);
    forall k | 0 <= k < |d.undo| ensures r[k] == d.undo[k] {
      assert MarkedAs(e.undo[k], r[k], since);
      assert e.undo[k] == e.undo[..|d.undo|][k];
    }
    forall k | |d.undo| <= k < |e.undo| ensures r[k].change.UndoGroup() == Some(0xFFFF_FFFF_FFFF_FFFF - since) {
      assert MarkedAs(e.undo[k], r[k], since);
    }
  }

  /** The entries pushed since the mark have its group, those below are as they were. */
  lemma TurnIsGrouped(d: Doc, changes: seq<Change>)
    requires Ordered(d) && AllRecorded(d, changes)
    ensures var stack := Turn(d, changes).undo;
            |stack| == |d.undo| + |changes| && stack[..|d.undo|] == d.undo &&
            forall k :: |d.undo| <= k < |stack| ==> stack[k].change.UndoGroup() == Some(MAX_U64 - TopSeq(d))
  {
    var e := PushAll(d, changes);
    PushAllIsAtop(d, changes);
    PushAllKeepsOrder(d, changes);
    OrderedAscends(d);
    OrderedAscends(e);
    MarkedAbove(d, e, |changes|, TopSeq(d));
  }

  /** Two heights that the same group fills down to are the same. */
  lemma FillsOnce(stack: seq<UndoEntry>, h: nat, h': nat, g: int)
    requires GroupFills(stack, h, g) && GroupFills(stack, h', g)
    ensures h == h'
  {
    assert h' > 0 ==> stack[..h'][h' - 1] == stack[h' - 1];
    assert h > 0 ==> stack[..h][h - 1] == stack[h - 1];
  }

  lemma TurnStack(d: Doc, changes: seq<Change>, fails: set<Path>)
    requires Ordered(d) && changes != [] && AllRecorded(d, changes)
    ensures Undo(Turn(d, changes), fails).1 == Done
    ensures Undo(Turn(d, changes), fails).0.undo == d.undo <==> TopGroup(d.undo) != Some(MAX_U64 - TopSeq(d))
  {
    var t, g := Turn(d, changes), MAX_U64 - TopSeq(d);
    TurnIsGrouped(d, changes);
    UndoStepsExactly(t, fails);
    var left := Undo(t, fails).0.undo;
    assert GroupFills(t.undo, |left|, g);
    if TopGroup(d.undo) != Some(g) {
      assert GroupFills(t.undo, |d.undo|, g);
      FillsOnce(t.undo, |left|, |d.undo|, g);
    }
  }

  lemma TurnText(d: Doc, changes: seq<Change>, fails: set<Path>, texts: seq<string>, saved: string)
    requires Sound(d, texts, saved) && d.modifiable && AllRecorded(d, changes)
    ensures Undo(Turn(d, changes), fails).0.undo == d.undo ==> Undo(Turn(d, changes), fails).0.text == d.text
  {
    var texts' := PushAllKeepsSound(d, changes, texts, saved);
    PushAllIsAtop(d, changes);
    GroupingKeepsSound(PushAll(d, changes), TopSeq(d), texts', saved);
    UndoKeepsSound(Turn(d, changes), fails, texts', saved);
  }

  /** One undo brings back the entries there were at the mark, exactly when the entry
      below is not of the group that the mark gives out; and with them the text. */
  predicate UndoneAtOnce(d: Doc, turn: Doc, fails: set<Path>) {
    var e := Undo(turn, fails).0;
    (e.undo == d.undo <==> TopGroup(d.undo) != Some(0xFFFF_FFFF_FFFF_FFFF - TopSeq(d))) &&
    (e.undo == d.undo ==> e.text == d.text)
  }

  lemma SoundTurn(d: Doc, changes: seq<Change>, fails: set<Path>, texts: seq<string>, saved: string)
    requires Sound(d, texts, saved) && d.modifiable && AllRecorded(d, changes) && changes != []
    ensures UndoneAtOnce(d, Turn(d, changes), fails)
  {
    TurnStack(d, changes, fails);
    TurnText(d, changes, fails, texts, saved);
  }

  /** After any run that refuses no change of text, the changes pushed since a mark are one
      undo step, unless the entry below them already has the group of the mark. */
  lemma TurnUndoneAtOnce(text: string, steps: seq<Step>, d: Doc, changes: seq<Change>, fails: set<Path>)
    requires AllTake(Start(text), steps) && d == Run(Start(text), steps).doc
    requires d.modifiable && AllRecorded(d, changes) && changes != []
    ensures UndoneAtOnce(d, Turn(d, changes), fails)
  {
    var texts := RunKeepsSound(text, steps);
    SoundTurn(d, changes, fails, texts, Run(Start(text), steps).lastSaved);
  }
}
