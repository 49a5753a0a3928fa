/** The width of a line's blanks is the column its text is shown at
    (ovim-core/src/indentation.rs, ovim-core/src/display.rs). */
module ShownBlanks {
  import opened Basics
  import opened Display
  import opened Segments
  import opened Indentation
  import Arithmetic

  lemma BlanksAreAscii(s: string)
    requires AllBlank(s)
    ensures AllAscii(s) && IsLine(s)
  {
  }

  /** Reaching the next stop is the same for a tab of the line and one of its blanks. */
  lemma NextStopIs(from: nat, to: nat, tab: nat)
    requires tab >= 1 && to % tab == 0 && from < to <= from + tab
    ensures to == from + (tab - from % tab)
  {
    var next := from + (tab - from % tab);
    assert next == (from / tab + 1) * tab;
    assert to == (to / tab) * tab;
    Arithmetic.MultipleBeyond(to / tab - (from / tab + 1), tab);
    assert (to / tab - (from / tab + 1)) * tab == to - next;
  }

  /** What stands behind the first `n` blanks of a line is shown at their width. */
  lemma {:induction false} BlanksAreShown(u: Unicode, s: string, n: nat, tab: nat)
    requires Lawful(u) && AllBlank(s) && n <= |s| && tab >= 1
    ensures n <= |Clusters(u, s)| && DisplayStart(Clusters(u, s), n, tab) == BlankWidth(s[..n], 0, tab)
  {
    BlanksAreAscii(s);
    AsciiLength(u, s);
    if n > 0 {
      BlanksAreShown(u, s, n - 1, tab);
      AsciiCells(u, s, n - 1, tab);
      assert s[..n][..n - 1] == s[..n - 1];
      if s[n - 1] == '\t' {
        NextStopIs(DisplayStart(Clusters(u, s), n - 1, tab), DisplayStart(Clusters(u, s), n, tab), tab);
      }
    }
  }
}
