/** Encoding an indentation width as tabs and spaces (ovim-core/src/indentation.rs). */
module Indentation {
  import opened Arithmetic
  import opened Basics
  import opened Scanner

  datatype Options = Options(tabWidth: nat, shiftWidth: nat, expandTab: bool)

  function Normalized(o: Options): (r: Options)
    ensures r.tabWidth >= 1 && r.shiftWidth >= 1 && r.expandTab == o.expandTab
    ensures (o.tabWidth >= 1 ==> r.tabWidth == o.tabWidth) && (o.shiftWidth >= 1 ==> r.shiftWidth == o.shiftWidth)
  {
    o.(tabWidth := if o.tabWidth >= 1 then o.tabWidth else 1,
       shiftWidth := if o.shiftWidth >= 1 then o.shiftWidth else 1)
  }

  function EncodeIndent(o: Options, width: nat): string {
    var n := Normalized(o);
    if n.expandTab then Repeat(' ', width) else Repeat('\t', width / n.tabWidth) + Repeat(' ', width % n.tabWidth)
  }

  /** Display width of blanks from column `col` on; a tab goes to the next stop. */
  function BlankWidth(s: string, col: nat, tabWidth: nat): nat
    requires tabWidth >= 1
  {
    if s == "" then col
    else
      var before := BlankWidth(s[..|s| - 1], col, tabWidth);
      if s[|s| - 1] == '\t' then before + (tabWidth - before % tabWidth) else before + 1
  }

  lemma {:induction false} SpacesWidth(n: nat, col: nat, tabWidth: nat)
    requires tabWidth >= 1
    ensures BlankWidth(Repeat(' ', n), col, tabWidth) == col + n
  {
    if n > 0 {
      SpacesWidth(n - 1, col, tabWidth);
      assert Repeat(' ', n)[..n - 1] == Repeat(' ', n - 1);
    }
  }

  lemma OneMoreTab(s: string, tabWidth: nat)
    requires tabWidth >= 1 && s != "" && s[|s| - 1] == '\t'
    ensures var before := BlankWidth(s[..|s| - 1], 0, tabWidth);
            BlankWidth(s, 0, tabWidth) == before + (tabWidth - before % tabWidth)
  {
  }

  /** From a stop, a tab leads to the next. */
  lemma NextStop(n: nat, tabWidth: nat)
    requires tabWidth >= 1
    ensures n * tabWidth + (tabWidth - (n * tabWidth) % tabWidth) == (n + 1) * tabWidth
  {
    MultipleIsStop(n, tabWidth);
  }

  lemma {:induction false} TabsWidth(n: nat, tabWidth: nat)
    requires tabWidth >= 1
    ensures BlankWidth(Repeat('\t', n), 0, tabWidth) == n * tabWidth
  {
    if n > 0 {
      TabsWidth(n - 1, tabWidth);
      OneMoreTab(Repeat('\t', n), tabWidth);
      assert Repeat('\t', n)[..n - 1] == Repeat('\t', n - 1);
      NextStop(n - 1, tabWidth);
    }
  }

  lemma {:induction false} BlankWidthConcat(a: string, b: string, col: nat, tabWidth: nat)
    requires tabWidth >= 1
    ensures BlankWidth(a + b, col, tabWidth) == BlankWidth(b, BlankWidth(a, col, tabWidth), tabWidth)
  {
    if b == "" {
      assert a + b == a;
    } else {
      BlankWidthConcat(a, b[..|b| - 1], col, tabWidth);
      assert (a + b)[..|a + b| - 1] == a + b[..|b| - 1];
    }
  }

  /** The encoded indentation is blanks only and reaches exactly its width. */
  lemma EncodeReachesWidth(o: Options, width: nat)
    ensures AllBlank(EncodeIndent(o, width))
    ensures BlankWidth(EncodeIndent(o, width), 0, Normalized(o).tabWidth) == width
  {
    var n := Normalized(o);
    if n.expandTab {
      SpacesWidth(width, 0, n.tabWidth);
    } else {
      TabbedWidth(width / n.tabWidth, width % n.tabWidth, n.tabWidth);
      DivideAndMultiply(width, n.tabWidth);
    }
  }

  lemma TabbedWidth(tabs: nat, spaces: nat, tabWidth: nat)
    requires tabWidth >= 1
    ensures AllBlank(Repeat('\t', tabs) + Repeat(' ', spaces))
    ensures BlankWidth(Repeat('\t', tabs) + Repeat(' ', spaces), 0, tabWidth) == tabs * tabWidth + spaces
  {
    TabsWidth(tabs, tabWidth);
    SpacesWidth(spaces, tabs * tabWidth, tabWidth);
    BlankWidthConcat(Repeat('\t', tabs), Repeat(' ', spaces), 0, tabWidth);
  }

  /** With `expandtab` it has no tab; without, as many tabs as fit come first. */
  lemma EncodedTabsFirst(o: Options, width: nat) returns (tabs: nat)
    ensures var s := EncodeIndent(o, width);
            tabs <= |s| && (forall k :: 0 <= k < |s| ==> s[k] == if k < tabs then '\t' else ' ') &&
            if o.expandTab then tabs == 0 else |s| - tabs < Normalized(o).tabWidth
  {
    tabs := if o.expandTab then 0 else width / Normalized(o).tabWidth;
  }
}
