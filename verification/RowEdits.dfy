/** How an edit of the text moves its rows: what a pending edit records and what
    the row counts become (ovim-core/src/text_index.rs). */
module RowEdits {
  import opened Basics
  import opened Lines
  import opened Segments
  import opened LineChanges

  /** A row of the text, empty past the last one. */
  function Row(text: string, line: nat): string {
    if line < |Split(text)| then Split(text)[line] else ""
  }

  lemma RowIsLine(text: string, line: nat)
    ensures IsLine(Row(text, line))
  {
    if line < |Split(text)| {
      SplitLinesHaveNoBreak(text, line);
    }
  }

  datatype PendingTextEdit = PendingTextEdit(startLine: nat, endLine: nat, startCol: nat, endCol: nat, oldLines: nat)

  /** `PendingTextEdit::new`: the rows and columns of an edit, before it happens. */
  function Prepare(text: string, start: nat, end: nat): PendingTextEdit
    requires start <= end <= |text|
  {
    PendingTextEdit(LineOf(text, start), LineOf(text, end), ColOf(text, start), ColOf(text, end), |Split(text)|)
  }

  function RowsAfter(edit: PendingTextEdit, newLines: nat): int {
    var rows := edit.endLine - edit.startLine + 1;
    if newLines >= edit.oldLines then rows + (newLines - edit.oldLines) else rows - (edit.oldLines - newLines)
  }

  function ChangeOf(text: string, start: nat, end: nat, inserted: string, version: nat): (c: LineChange)
    requires start <= end <= |text|
  {
    LineChange(version, LineOf(text, start), |Split(text[start..end])|, |Split(inserted)|)
  }

  // ----- rows around an edit -------------------------------------------------------------

  /** The rows of a text in three parts. */
  function Joined(a: seq<string>, m: seq<string>, b: seq<string>): seq<string>
    requires |a| >= 1 && |m| >= 1 && |b| >= 1
  {
    Glue(Glue(a, m), b)
  }

  lemma JoinedCount(a: seq<string>, m: seq<string>, b: seq<string>)
    requires |a| >= 1 && |m| >= 1 && |b| >= 1
    ensures |Joined(a, m, b)| == |a| + |m| + |b| - 2
  {
  }

  lemma JoinedBefore(a: seq<string>, m: seq<string>, b: seq<string>, k: nat)
    requires |m| >= 1 && |b| >= 1 && k < |a| - 1
    ensures k < |Joined(a, m, b)| && Joined(a, m, b)[k] == a[k]
  {
    assert Glue(a, m)[k] == a[k];
  }

  lemma JoinedBeyond(a: seq<string>, m: seq<string>, b: seq<string>, k: nat)
    requires |a| >= 1 && |m| >= 1 && 1 <= k < |b|
    ensures k + |a| + |m| - 2 < |Joined(a, m, b)| && Joined(a, m, b)[k + |a| + |m| - 2] == b[k]
  {
    assert |Glue(a, m)| == |a| + |m| - 1;
  }

  lemma JoinedMiddle(a: seq<string>, m: string, b: seq<string>)
    requires |a| >= 1 && |b| >= 1
    ensures |a| - 1 < |Joined(a, [m], b)|
    ensures Joined(a, [m], b)[|a| - 1] == Last(a) + m + b[0]
  {
  }

  lemma SplitThree(a: string, m: string, b: string)
    ensures Split(a + m + b) == Joined(Split(a), Split(m), Split(b))
  {
    SplitConcat(a + m, b);
    SplitConcat(a, m);
  }

  lemma SplitTwoOf(text: string, a: string, m: string)
    requires text == a + m
    ensures Split(text) == Glue(Split(a), Split(m))
  {
    SplitConcat(a, m);
  }

  lemma EditPieces(text: string, start: nat, end: nat)
    requires start <= end <= |text|
    ensures Split(text) == Joined(Split(text[..start]), Split(text[start..end]), Split(text[end..]))
  {
    ThreePieces(text, start, end);
    SplitThree(text[..start], text[start..end], text[end..]);
  }

  lemma ThreePieces(text: string, start: nat, end: nat)
    requires start <= end <= |text|
    ensures text[..start] + text[start..end] + text[end..] == text
  {
  }

  lemma HeadPieces(text: string, start: nat, end: nat)
    requires start <= end <= |text|
    ensures Split(text[..end]) == Glue(Split(text[..start]), Split(text[start..end]))
  {
    SplitTwoOf(text[..end], text[..start], text[start..end]);
  }

  lemma SplicePieces(text: string, start: nat, end: nat, inserted: string)
    requires start <= end <= |text|
    ensures Split(Splice(text, start, end, inserted))
            == Joined(Split(text[..start]), Split(inserted), Split(text[end..]))
  {
    SplitThree(text[..start], inserted, text[end..]);
  }

  lemma CountsAroundEdit(text: string, start: nat, end: nat, inserted: string)
    requires start <= end <= |text|
    ensures |Split(text)| == LineOf(text, start) + |Split(text[start..end])| + |Split(text[end..])| - 1
    ensures |Split(Splice(text, start, end, inserted))|
            == LineOf(text, start) + |Split(inserted)| + |Split(text[end..])| - 1
  {
    var a, m, b := Split(text[..start]), Split(text[start..end]), Split(text[end..]);
    EditPieces(text, start, end);
    SplicePieces(text, start, end, inserted);
    JoinedCount(a, m, b);
    JoinedCount(a, Split(inserted), b);
  }

  /** Rows before the edit stay, rows after it move, and the rows in between are
      the inserted text between the two halves of the boundary rows. */
  lemma RowsAroundEdit(text: string, start: nat, end: nat, inserted: string)
    requires start <= end <= |text|
    ensures var p := Prepare(text, start, end);
            p.endLine - p.startLine + 1 == |Split(text[start..end])|
    ensures RowsAfter(Prepare(text, start, end), |Split(Splice(text, start, end, inserted))|) == |Split(inserted)|
    ensures LineOf(text, start) + |Split(text[start..end])| <= |Split(text)|
  {
    CountsAroundEdit(text, start, end, inserted);
    HeadPieces(text, start, end);
  }

  lemma RowsBefore(text: string, start: nat, end: nat, inserted: string, k: nat)
    requires start <= end <= |text| && k < LineOf(text, start)
    ensures Row(Splice(text, start, end, inserted), k) == Row(text, k)
  {
    var a, m, b := Split(text[..start]), Split(text[start..end]), Split(text[end..]);
    EditPieces(text, start, end);
    SplicePieces(text, start, end, inserted);
    JoinedBefore(a, m, b, k);
    JoinedBefore(a, Split(inserted), b, k);
  }

  lemma RowsBeyond(text: string, start: nat, end: nat, inserted: string, k: nat, moved: nat)
    requires start <= end <= |text| && k > LineOf(text, end)
    requires moved == k - |Split(text[start..end])| + |Split(inserted)|
    ensures Row(Splice(text, start, end, inserted), moved) == Row(text, k)
  {
    RowsAroundEdit(text, start, end, inserted);
    CountsAroundEdit(text, start, end, inserted);
    if k < |Split(text)| {
      var j := k - LineOf(text, start) - |Split(text[start..end])| + 1;
      ShownBeyond(text, start, end, k, j);
      SplicedBeyond(text, start, end, inserted, moved, j);
    }
  }

  lemma ShownBeyond(text: string, start: nat, end: nat, k: nat, j: nat)
    requires start <= end <= |text| && 1 <= j < |Split(text[end..])|
    requires k == j + LineOf(text, start) + |Split(text[start..end])| - 1
    ensures Row(text, k) == Split(text[end..])[j]
  {
    EditPieces(text, start, end);
    JoinedBeyond(Split(text[..start]), Split(text[start..end]), Split(text[end..]), j);
  }

  lemma SplicedBeyond(text: string, start: nat, end: nat, inserted: string, k: nat, j: nat)
    requires start <= end <= |text| && 1 <= j < |Split(text[end..])|
    requires k == j + LineOf(text, start) + |Split(inserted)| - 1
    ensures Row(Splice(text, start, end, inserted), k) == Split(text[end..])[j]
  {
    SplicePieces(text, start, end, inserted);
    JoinedBeyond(Split(text[..start]), Split(inserted), Split(text[end..]), j);
  }

  lemma SplicedRow(text: string, start: nat, end: nat, inserted: string)
    requires start <= end <= |text| && '\n' !in inserted
    ensures Row(Splice(text, start, end, inserted), LineOf(text, start))
            == Last(Split(text[..start])) + inserted + Split(text[end..])[0]
  {
    SplicePieces(text, start, end, inserted);
    SplitWithoutBreak(inserted);
    JoinedMiddle(Split(text[..start]), inserted, Split(text[end..]));
  }

  lemma EndColumn(text: string, start: nat, end: nat)
    requires start <= end <= |text| && '\n' !in text[start..end]
    ensures ColOf(text, end) == |Last(Split(text[..start])) + text[start..end]|
  {
    HeadPieces(text, start, end);
    SplitWithoutBreak(text[start..end]);
  }

  /** A local edit splices its row. */
  lemma RowSpliced(text: string, start: nat, end: nat, inserted: string)
    requires start <= end <= |text|
    requires |Split(text[start..end])| == 1 && |Split(inserted)| == 1
    ensures var p := Prepare(text, start, end);
            p.startCol <= p.endCol <= |Row(text, p.startLine)| &&
            Row(Splice(text, start, end, inserted), p.startLine)
            == Splice(Row(text, p.startLine), p.startCol, p.endCol, inserted)
  {
    SplitSingle(text[start..end]);
    SplitSingle(inserted);
    SplicedRow(text, start, end, inserted);
    WholeRow(text, start, end);
    EndColumn(text, start, end);
    ColumnsOfSplice(Last(Split(text[..start])), text[start..end], Split(text[end..])[0], inserted);
  }

  lemma WholeRow(text: string, start: nat, end: nat)
    requires start <= end <= |text| && '\n' !in text[start..end]
    ensures Row(text, LineOf(text, start)) == Last(Split(text[..start])) + text[start..end] + Split(text[end..])[0]
  {
    SplicedRow(text, start, end, text[start..end]);
    assert Splice(text, start, end, text[start..end]) == text;
  }

  lemma ColumnsOfSplice(x: string, m: string, y: string, inserted: string)
    ensures Splice(x + m + y, |x|, |x + m|, inserted) == x + inserted + y
  {
  }

  lemma EditIsRowSplice(text: string, start: nat, end: nat, inserted: string, version: nat)
    requires start <= end <= |text|
    ensures RowSplice(text, Splice(text, start, end, inserted), ChangeOf(text, start, end, inserted, version))
  {
    var after, c := Splice(text, start, end, inserted), ChangeOf(text, start, end, inserted, version);
    RowsAroundEdit(text, start, end, inserted);
    CountsAroundEdit(text, start, end, inserted);
    forall k: nat | k < c.startLine ensures Split(after)[k] == Split(text)[k] {
      RowsBefore(text, start, end, inserted, k);
    }
    forall k: nat | c.startLine + c.oldCount <= k < |Split(text)|
      ensures Split(after)[k - c.oldCount + c.newCount] == Split(text)[k]
    {
      RowAfterEdit(text, start, end, inserted, k, k - c.oldCount + c.newCount);
    }
  }

  lemma RowAfterEdit(text: string, start: nat, end: nat, inserted: string, k: nat, moved: nat)
    requires start <= end <= |text|
    requires LineOf(text, start) + |Split(text[start..end])| <= k < |Split(text)|
    requires moved == k - |Split(text[start..end])| + |Split(inserted)|
    ensures var after := Split(Splice(text, start, end, inserted));
            moved < |after| && after[moved] == Split(text)[k]
  {
    RowsAroundEdit(text, start, end, inserted);
    CountsAroundEdit(text, start, end, inserted);
    RowsBeyond(text, start, end, inserted, k, moved);
  }

  /** The change names no row that the edit does not touch: it begins on the row of the
      start and ends, before and after, on the row of what is removed or inserted last. */
  lemma ChangeTouchesOnly(text: string, start: nat, end: nat, inserted: string, version: nat)
    requires start <= end <= |text|
    ensures var c, after := ChangeOf(text, start, end, inserted, version), Splice(text, start, end, inserted);
            c.version == version && c.startLine == LineOf(text, start) &&
            c.startLine + c.oldCount == LineOf(text, end) + 1 &&
            c.startLine + c.newCount == LineOf(after, start + |inserted|) + 1
  {
    var after := Splice(text, start, end, inserted);
    HeadPieces(text, start, end);
    assert after[..start + |inserted|] == text[..start] + inserted;
    SplitConcat(text[..start], inserted);
  }
}
