/** The cache of line indexes of a buffer, its row keys shifted by every edit
    (ovim-core/src/text_index.rs); the buffer operations that keep it are in
    `IndexedBuffers`. */
module TextIndexCaches {
  import opened Basics
  import opened Lines
  import opened Segments
  import opened LineIndexes
  import opened LineIndexQueries
  import opened LineChanges
  import opened RowEdits

  /** The entry indexes exactly this line. */
  ghost predicate Current(u: Unicode, index: LineIndex, line: string)
    reads index`displays
  {
    index.Valid() && index.u == u && index.layout.text == line
  }

  /** Every entry is the index of its row. */
  ghost predicate AllCurrent(u: Unicode, lines: map<nat, LineIndex>, text: string)
    reads lines.Values
  {
    forall k :: k in lines ==> Current(u, lines[k], Row(text, k))
  }

  /** Where an edit moves the entry of a row; rows it touches lose theirs. */
  function MovedKey(edit: PendingTextEdit, newRows: nat, k: nat): (r: Option<nat>)
    requires edit.startLine <= edit.endLine
  {
    if k < edit.startLine then Some(k)
    else if k > edit.endLine then Some(k - (edit.endLine - edit.startLine + 1) + newRows)
    else None
  }

  /** The entries `now` are those of `was` for the rows in `done`, moved. */
  ghost predicate Rekeyed(was: map<nat, LineIndex>, now: map<nat, LineIndex>, edit: PendingTextEdit, newRows: nat,
                          done: set<nat>)
    requires edit.startLine <= edit.endLine
  {
    (forall k :: k in done && k in was && MovedKey(edit, newRows, k).Some? ==>
       MovedKey(edit, newRows, k).value in now && now[MovedKey(edit, newRows, k).value] == was[k]) &&
    (forall j :: j in now ==> ComesFrom(was, now, edit, newRows, done, j))
  }

  ghost predicate ComesFrom(was: map<nat, LineIndex>, now: map<nat, LineIndex>, edit: PendingTextEdit, newRows: nat,
                            done: set<nat>, j: nat)
    requires edit.startLine <= edit.endLine && j in now
  {
    exists k :: k in done && k in was && MovedKey(edit, newRows, k) == Some(j) && now[j] == was[k]
  }

  lemma RekeyMore(was: map<nat, LineIndex>, now: map<nat, LineIndex>, edit: PendingTextEdit, newRows: nat,
                  done: set<nat>, line: nat)
    requires edit.startLine <= line && edit.startLine <= edit.endLine && line in was && line !in done && newRows >= 1
    requires Rekeyed(was, now, edit, newRows, done)
    ensures Rekeyed(was, Reinserted(was, now, edit, newRows, line), edit, newRows, done + {line})
  {
    var now' := Reinserted(was, now, edit, newRows, line);
    forall j | j in now' ensures ComesFrom(was, now', edit, newRows, done + {line}, j) {
      if line > edit.endLine && j == MovedKey(edit, newRows, line).value {
        assert line in done + {line};
      } else {
        assert ComesFrom(was, now, edit, newRows, done, j);
        var k :| k in done && k in was && MovedKey(edit, newRows, k) == Some(j) && now[j] == was[k];
        assert k in done + {line};
      }
    }
    forall k | k in done && k in was && MovedKey(edit, newRows, k).Some?
      ensures MovedKey(edit, newRows, k).value in now' && now'[MovedKey(edit, newRows, k).value] == was[k]
    {
      assert line > edit.endLine ==> MovedKey(edit, newRows, k) != MovedKey(edit, newRows, line);
    }
  }

  function Head(was: map<nat, LineIndex>, startLine: nat): (now: map<nat, LineIndex>)
    ensures now.Keys <= was.Keys
    ensures forall k :: k in was && k < startLine ==> k in now
  {
    map k | k in was && k < startLine :: was[k]
  }

  lemma RekeyHead(was: map<nat, LineIndex>, edit: PendingTextEdit, newRows: nat)
    requires edit.startLine <= edit.endLine
    ensures Rekeyed(was, Head(was, edit.startLine), edit, newRows, Head(was, edit.startLine).Keys)
  {
    var now := Head(was, edit.startLine);
    forall j | j in now ensures ComesFrom(was, now, edit, newRows, now.Keys, j) {
      assert MovedKey(edit, newRows, j) == Some(j);
    }
  }

  /** Splits the rows from `startLine` on off the map and puts those after the edit
      back under their new numbers. */
  method Rekey(was: map<nat, LineIndex>, edit: PendingTextEdit, newRows: nat) returns (now: map<nat, LineIndex>)
    requires edit.startLine <= edit.endLine && newRows >= 1
    ensures Rekeyed(was, now, edit, newRows, was.Keys)
  {
    var head := Head(was, edit.startLine);
    RekeyHead(was, edit, newRows);
    now := RekeyTail(was, head, was.Keys - head.Keys, edit, newRows);
  }

  method Reinsert(was: map<nat, LineIndex>, now: map<nat, LineIndex>, edit: PendingTextEdit, newRows: nat,
                  ghost done: set<nat>, line: nat)
      returns (next: map<nat, LineIndex>)
    requires edit.startLine <= line && edit.startLine <= edit.endLine && line in was && line !in done && newRows >= 1
    requires Rekeyed(was, now, edit, newRows, done)
    ensures Rekeyed(was, next, edit, newRows, done + {line})
  {
    RekeyMore(was, now, edit, newRows, done, line);
    next := Reinserted(was, now, edit, newRows, line);
  }

  /** The rows of `keys` still to be put back, all from the edit on. */
  predicate Pending(keys: set<nat>, done: set<nat>, tail: set<nat>, startLine: nat) {
    done + tail == keys && done !! tail && forall k :: k in tail ==> k >= startLine
  }

  lemma PendingStep(keys: set<nat>, done: set<nat>, tail: set<nat>, startLine: nat, line: nat)
    requires Pending(keys, done, tail, startLine) && line in tail
    ensures Pending(keys, done + {line}, tail - {line}, startLine)
    ensures line in keys && line !in done && startLine <= line
  {
  }

  method RekeyTail(was: map<nat, LineIndex>, head: map<nat, LineIndex>, tail0: set<nat>, edit: PendingTextEdit,
                   newRows: nat)
      returns (now: map<nat, LineIndex>)
    requires edit.startLine <= edit.endLine && newRows >= 1
    requires Pending(was.Keys, head.Keys, tail0, edit.startLine)
    requires Rekeyed(was, head, edit, newRows, head.Keys)
    ensures Rekeyed(was, now, edit, newRows, was.Keys)
  {
    var tail := tail0;
    now := head;
    ghost var done := head.Keys;
    while tail != {}
      invariant Pending(was.Keys, done, tail, edit.startLine)
      invariant Rekeyed(was, now, edit, newRows, done)
      decreases |tail|
    {
      var line :| line in tail;
      PendingStep(was.Keys, done, tail, edit.startLine, line);
      now := Reinsert(was, now, edit, newRows, done, line);
      tail, done := tail - {line}, done + {line};
    }
    assert done == was.Keys;
  }

  function Reinserted(was: map<nat, LineIndex>, now: map<nat, LineIndex>, edit: PendingTextEdit, newRows: nat,
                      line: nat): map<nat, LineIndex>
    requires edit.startLine <= edit.endLine && line in was
  {
    if line > edit.endLine then now[line - (edit.endLine - edit.startLine + 1) + newRows := was[line]] else now
  }

  /** Moved entries are current in the edited text. */
  lemma MovedAreCurrent(u: Unicode, was: map<nat, LineIndex>, now: map<nat, LineIndex>,
                        text: string, start: nat, end: nat, inserted: string, edit: PendingTextEdit, rows: nat)
    requires start <= end <= |text| && AllCurrent(u, was, text)
    requires edit == Prepare(text, start, end) && rows == |Split(inserted)| && edit.startLine <= edit.endLine
    requires Rekeyed(was, now, edit, rows, was.Keys)
    ensures AllCurrent(u, now, Splice(text, start, end, inserted))
    ensures now.Values <= was.Values
  {
    forall j | j in now
      ensures now[j] in was.Values && Current(u, now[j], Row(Splice(text, start, end, inserted), j))
    {
      assert ComesFrom(was, now, edit, rows, was.Keys, j);
      var k :| k in was && MovedKey(edit, rows, k) == Some(j) && now[j] == was[k];
      RowsAroundEdit(text, start, end, inserted);
      if k < edit.startLine {
        RowsBefore(text, start, end, inserted, k);
      } else {
        RowsBeyond(text, start, end, inserted, k, j);
      }
    }
  }

  /** An edit inside one row leaves every other entry, and drops that row's only for a
      carriage return; any other edit keeps the entries beside its rows, under the numbers
      their rows have now. */
  ghost predicate EntriesFollow(was: map<nat, LineIndex>, now: map<nat, LineIndex>, edit: PendingTextEdit,
                                change: LineChange, inserted: string)
  {
    edit.startLine <= edit.endLine &&
    if change.oldCount == 1 && change.newCount == 1 then
      now - {edit.startLine} == was - {edit.startLine} &&
      (edit.startLine in now <==> edit.startLine in was && '\r' !in inserted)
    else Rekeyed(was, now, edit, change.newCount, was.Keys)
  }

  class TextIndexCache {
    const u: Unicode
    var lines: map<nat, LineIndex>

    ghost predicate Valid(text: string)
      reads this, lines.Values
    {
      Lawful(u) && AllCurrent(u, lines, text)
    }

    constructor (u: Unicode)
      requires Lawful(u)
      ensures this.u == u && lines == map[]
    {
      this.u, this.lines := u, map[];
    }

    /** A lookup answers with the index of that row, cached or not; rows past the
        end index as empty. */
    method Lookup(text: string, line: nat) returns (index: LineIndex)
      requires Valid(text)
      modifies this`lines
      ensures Valid(text)
      ensures Current(u, index, Row(text, line))
      ensures line in old(lines) ==> lines == old(lines) && index == lines[line]
      ensures line !in old(lines) ==> fresh(index) && lines == old(lines)[line := index]
    {
      if line in lines {
        return lines[line];
      }
      RowIsLine(text, line);
      index := new LineIndex.New(u, Row(text, line));
      lines := lines[line := index];
    }

    method Clear(text: string)
      requires Lawful(u)
      modifies this`lines
      ensures lines == map[] && Valid(text)
    {
      lines := map[];
    }

    /** After an edit every entry is the index of its row in the new text: local
        typing updates one entry in place, other edits renumber the rest. */
    method Edited(ghost text: string, ghost start: nat, ghost end: nat, after: string,
                  edit: PendingTextEdit, inserted: string, version: nat) returns (change: LineChange)
      requires start <= end <= |text| && Valid(text)
      requires edit == Prepare(text, start, end) && after == Splice(text, start, end, inserted)
      modifies this`lines
      ensures Valid(after)
      ensures change == ChangeOf(text, start, end, inserted, version)
      ensures fresh(lines.Values - old(lines.Values))
      ensures EntriesFollow(old(lines), lines, edit, change, inserted)
    {
      RowsAroundEdit(text, start, end, inserted);
      var oldRows := edit.endLine - edit.startLine + 1;
      var newRows := if |Split(after)| >= edit.oldLines then oldRows + (|Split(after)| - edit.oldLines)
                     else oldRows - (edit.oldLines - |Split(after)|);
      change := LineChange(version, edit.startLine, oldRows, newRows);
      if oldRows == 1 && newRows == 1 {
        EditedRow(text, start, end, after, edit, inserted);
      } else {
        var moved := Rekey(lines, edit, newRows);
        MovedAreCurrent(u, lines, moved, text, start, end, inserted, edit, newRows);
        lines := moved;
      }
    }

    method EditedRow(ghost text: string, ghost start: nat, ghost end: nat, ghost after: string, edit: PendingTextEdit,
                     inserted: string)
      requires start <= end <= |text| && Valid(text)
      requires edit == Prepare(text, start, end) && after == Splice(text, start, end, inserted)
      requires |Split(text[start..end])| == 1 && |Split(inserted)| == 1
      modifies this`lines
      ensures Valid(after)
      ensures fresh(lines.Values - old(lines.Values))
      ensures lines - {edit.startLine} == old(lines) - {edit.startLine}
      ensures edit.startLine in lines <==> edit.startLine in old(lines) && '\r' !in inserted
    {
      lines := RowUpdated(u, lines, text, start, end, after, edit, inserted);
    }
  }

  /** The entries after an edit inside one row: that row's index is updated in
      place when it is cached. */
  method RowUpdated(u: Unicode, lines: map<nat, LineIndex>, ghost text: string, ghost start: nat, ghost end: nat,
                    ghost after: string, edit: PendingTextEdit, inserted: string) returns (rest: map<nat, LineIndex>)
    requires Lawful(u) && start <= end <= |text| && AllCurrent(u, lines, text)
    requires edit == Prepare(text, start, end) && after == Splice(text, start, end, inserted)
    requires |Split(text[start..end])| == 1 && |Split(inserted)| == 1
    ensures AllCurrent(u, rest, after)
    ensures rest - {edit.startLine} == lines - {edit.startLine}
    ensures fresh(rest.Values - lines.Values)
    ensures edit.startLine in rest <==> edit.startLine in lines && '\r' !in inserted
  {
    OthersAreCurrent(u, lines, text, start, end, inserted);
    SplitSingle(inserted);
    rest := lines - {edit.startLine};
    WithoutKey(lines, edit.startLine);
    if edit.startLine in lines {
      EditFitsRow(text, start, end, edit);
      var index := lines[edit.startLine];
      if edit.endCol <= |index.layout.text| && '\r' !in inserted && '\n' !in inserted {
        var updated := IndexUpdated(u, index, text, start, end, after, edit, inserted);
        AddCurrent(u, rest, edit.startLine, updated, after);
        KeySetAnew(lines, edit.startLine, updated);
        rest := rest[edit.startLine := updated];
      }
    }
  }

  lemma EditFitsRow(text: string, start: nat, end: nat, edit: PendingTextEdit)
    requires start <= end <= |text| && edit == Prepare(text, start, end) && |Split(text[start..end])| == 1
    ensures edit.startCol <= edit.endCol <= |Row(text, edit.startLine)|
  {
    SplitSingle("");
    RowSpliced(text, start, end, "");
  }

  /** The index of the edited row, from that of the row before the edit. */
  method IndexUpdated(u: Unicode, index: LineIndex, ghost text: string, ghost start: nat, ghost end: nat,
                      ghost after: string, edit: PendingTextEdit, inserted: string) returns (updated: LineIndex)
    requires Lawful(u) && start <= end <= |text| && edit == Prepare(text, start, end)
    requires after == Splice(text, start, end, inserted) && Current(u, index, Row(text, edit.startLine))
    requires |Split(text[start..end])| == 1 && |Split(inserted)| == 1
    ensures fresh(updated) && Current(u, updated, Row(after, edit.startLine))
  {
    RowSpliced(text, start, end, inserted);
    RowIsLine(after, edit.startLine);
    updated := new LineIndex.FromEdit(index, edit.startCol, edit.endCol, inserted);
  }

  lemma AddCurrent(u: Unicode, lines: map<nat, LineIndex>, k: nat, index: LineIndex, text: string)
    requires AllCurrent(u, lines, text) && Current(u, index, Row(text, k))
    ensures AllCurrent(u, lines[k := index], text)
  {
  }

  lemma OthersAreCurrent(u: Unicode, lines: map<nat, LineIndex>, text: string, start: nat, end: nat, inserted: string)
    requires start <= end <= |text| && AllCurrent(u, lines, text)
    requires |Split(text[start..end])| == 1 && |Split(inserted)| == 1
    ensures AllCurrent(u, lines - {LineOf(text, start)}, Splice(text, start, end, inserted))
  {
    OtherRows(text, start, end, inserted);
  }

  /** An edit inside one row leaves every other row alone. */
  lemma OtherRows(text: string, start: nat, end: nat, inserted: string)
    requires start <= end <= |text|
    requires |Split(text[start..end])| == 1 && |Split(inserted)| == 1
    ensures forall k: nat :: k != LineOf(text, start) ==> Row(Splice(text, start, end, inserted), k) == Row(text, k)
  {
    RowsAroundEdit(text, start, end, inserted);
    forall k: nat | k != LineOf(text, start) ensures Row(Splice(text, start, end, inserted), k) == Row(text, k) {
      if k < LineOf(text, start) {
        RowsBefore(text, start, end, inserted, k);
      } else {
        RowsBeyond(text, start, end, inserted, k, k);
      }
    }
  }
}
