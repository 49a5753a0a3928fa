/** The change manager as it updates its stacks (ovim-core/src/change.rs); every
    method is tied to the function of the same name in `History`. */
module Changes {
  import opened Basics
  import opened Edits
  import H = History
  import opened History

  lemma GroupedLast(entries: seq<UndoEntry>, since: nat, i: nat)
    requires i < |entries| && entries[i].seqNo > since
    ensures Grouped(entries[..i + 1], since) == Grouped(entries[..i], since) + [Marked(entries[i], since)]
  {
    assert entries[..i + 1][..i] == entries[..i];
  }

  lemma GroupedDone(entries: seq<UndoEntry>, since: nat, i: nat)
    requires i <= |entries| && (i > 0 ==> entries[i - 1].seqNo <= since)
    ensures Grouped(entries[..i], since) == entries[..i]
  {
  }

  lemma SuffixWith(marked: seq<UndoEntry>, i: nat, e: UndoEntry)
    requires i < |marked|
    ensures marked[i := e][i..] == [e] + marked[i + 1..] && marked[i := e][..i] == marked[..i]
  {
  }

  lemma PrefixOfPrefix(marked: seq<UndoEntry>, entries: seq<UndoEntry>, i: nat)
    requires 0 < i <= |marked| && i <= |entries| && marked[..i] == entries[..i]
    ensures marked[i - 1] == entries[i - 1] && marked[..i - 1] == entries[..i - 1]
  {
    assert marked[..i][i - 1] == entries[..i][i - 1];
    assert marked[..i][..i - 1] == marked[..i - 1] && entries[..i][..i - 1] == entries[..i - 1];
  }

  /** Marks the entries above `since`, from the top of the stack down. */
  method GroupFrom(entries: seq<UndoEntry>, since: nat) returns (marked: seq<UndoEntry>)
    ensures marked == Grouped(entries, since)
  {
    var i := |entries|;
    marked := entries;
    assert entries[..i] == entries && marked[i..] == [];
    while i > 0 && marked[i - 1].seqNo > since
      invariant 0 <= i <= |marked| == |entries| && marked[..i] == entries[..i]
      invariant Grouped(entries, since) == Grouped(entries[..i], since) + marked[i..]
    {
      PrefixOfPrefix(marked, entries, i);
      i := i - 1;
      GroupedLast(entries, since, i);
      SuffixWith(marked, i, Marked(entries[i], since));
      Associate(Grouped(entries[..i], since), [Marked(entries[i], since)], marked[i + 1..]);
      marked := marked[i := Marked(marked[i], since)];
    }
    if i > 0 {
      PrefixOfPrefix(marked, entries, i);
    }
    GroupedDone(entries, since, i);
    assert marked == marked[..i] + marked[i..];
  }

  class ChangeManager {
    var undoStack: seq<UndoEntry>
    var redoStack: seq<UndoEntry>
    var savePoint: Option<nat>
    var nextSeq: nat

    /** The history of a buffer that currently holds `text`. */
    function State(text: string, modifiable: bool): Doc
      reads this
    {
      Doc(text, undoStack, redoStack, savePoint, nextSeq, modifiable)
    }

    function Of(buffer: Buffer): Doc
      reads this, buffer
    {
      State(buffer.text, buffer.modifiable)
    }

    constructor ()
      ensures forall text :: State(text, true) == NewDoc(text)
    {
      undoStack, redoStack, savePoint, nextSeq := [], [], Some(0), 1;
    }

    method PushChange(change: Change) returns (token: nat)
      modifies this
      ensures forall text, on :: State(text, on) == Push(old(State(text, on)), change)
      ensures token == TopSeq(State("", true)) == old(nextSeq)
    {
      token := nextSeq;
      nextSeq := nextSeq + 1;
      undoStack := undoStack + [UndoEntry(change, token)];
      redoStack := [];
    }

    method GroupSince(since: nat)
      modifies this
      ensures forall text, on :: State(text, on) == old(State(text, on)).(undo := Grouped(old(undoStack), since))
    {
      undoStack := GroupFrom(undoStack, since);
    }

    method Undo(buffer: Buffer, fails: set<Path>) returns (outcome: UndoOutcome)
      modifies this, buffer`text
      ensures (Of(buffer), outcome) == H.Undo(old(Of(buffer)), fails)
    {
      if undoStack == [] {
        return Nothing;
      }
      var entry := undoStack[|undoStack| - 1];
      undoStack := undoStack[..|undoStack| - 1];
      var ok := entry.change.UndoOn(buffer, fails);
      if !ok {
        undoStack := undoStack + [entry];
        assert Of(buffer) == old(Of(buffer));
        return Failed;
      }
      var group := entry.change.UndoGroup();
      redoStack := redoStack + [entry];
      assert Of(buffer) == UndoTop(old(Of(buffer)));
      if group.Some? {
        while undoStack != [] && undoStack[|undoStack| - 1].change.UndoGroup() == group
          invariant H.Undo(old(Of(buffer)), fails) == UndoGroup(Of(buffer), group.value, fails)
          decreases |undoStack|
        {
          ghost var d := Of(buffer);
          var grouped := undoStack[|undoStack| - 1];
          undoStack := undoStack[..|undoStack| - 1];
          ok := grouped.change.UndoOn(buffer, fails);
          if !ok {
            // Only recorded changes carry a group, and those always apply, so
            // the source's put-back on failure is never taken here.
            assert false;
          }
          redoStack := redoStack + [grouped];
          assert Of(buffer) == UndoTop(d);
        }
      }
      return Done;
    }

    method Redo(buffer: Buffer, fails: set<Path>) returns (outcome: UndoOutcome)
      modifies this, buffer`text
      ensures (Of(buffer), outcome) == H.Redo(old(Of(buffer)), fails)
    {
      if redoStack == [] {
        return Nothing;
      }
      var entry := redoStack[|redoStack| - 1];
      redoStack := redoStack[..|redoStack| - 1];
      var ok := entry.change.ApplyTo(buffer, fails);
      if !ok {
        redoStack := redoStack + [entry];
        assert Of(buffer) == old(Of(buffer));
        return Failed;
      }
      var group := entry.change.UndoGroup();
      undoStack := undoStack + [entry];
      assert Of(buffer) == RedoTop(old(Of(buffer)));
      if group.Some? {
        while redoStack != [] && redoStack[|redoStack| - 1].change.UndoGroup() == group
          invariant H.Redo(old(Of(buffer)), fails) == RedoGroup(Of(buffer), group.value, fails)
          decreases |redoStack|
        {
          ghost var d := Of(buffer);
          var grouped := redoStack[|redoStack| - 1];
          redoStack := redoStack[..|redoStack| - 1];
          ok := grouped.change.ApplyTo(buffer, fails);
          if !ok {
            // Only recorded changes carry a group, and those always apply, so
            // the source's put-back on failure is never taken here.
            assert false;
          }
          undoStack := undoStack + [grouped];
          assert Of(buffer) == RedoTop(d);
        }
      }
      return Done;
    }

    method MarkSaved()
      modifies this`savePoint
      ensures savePoint == Some(TopSeq(State("", true)))
    {
      savePoint := Some(if undoStack == [] then 0 else undoStack[|undoStack| - 1].seqNo);
    }

    method ClearSavePoint()
      modifies this`savePoint
      ensures savePoint == None
    {
      savePoint := None;
    }

    method IsAtSavePoint() returns (b: bool)
      ensures b == AtSavePoint(State("", true))
    {
      b := savePoint == Some(if undoStack == [] then 0 else undoStack[|undoStack| - 1].seqNo);
    }

    method PopByToken(token: nat) returns (change: Option<Change>)
      modifies this`undoStack
      ensures forall text, on :: (State(text, on), change) == H.PopByToken(old(State(text, on)), token)
    {
      var top := if undoStack == [] then 0 else undoStack[|undoStack| - 1].seqNo;
      if top == token && token != 0 {
        change := Some(undoStack[|undoStack| - 1].change);
        undoStack := undoStack[..|undoStack| - 1];
      } else {
        change := None;
      }
    }
  }
}
