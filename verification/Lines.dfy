/** How a buffer's text splits into lines: LF is the only line break, and a
    trailing LF opens one more (phantom) empty line, as the rope counts them. */
module Lines {

  /** The lines of `s` without their terminators; never empty. */
  function Split(s: string): (lines: seq<string>)
    ensures |lines| >= 1
  {
    if s == "" then [""] else Extend(Split(s[..|s| - 1]), s[|s| - 1])
  }

  /** The lines after one more character. */
  function Extend(lines: seq<string>, c: char): (r: seq<string>)
    requires |lines| >= 1
    ensures |r| >= 1
  {
    if c == '\n' then lines + [""] else lines[..|lines| - 1] + [Last(lines) + [c]]
  }

  function Last(lines: seq<string>): string
    requires |lines| >= 1
  {
    lines[|lines| - 1]
  }

  /** The lines of a concatenation: the two boundary lines become one. */
  function Glue(left: seq<string>, right: seq<string>): (r: seq<string>)
    requires |left| >= 1 && |right| >= 1
    ensures |r| == |left| + |right| - 1
    ensures forall k :: 0 <= k < |left| - 1 ==> r[k] == left[k]
    ensures r[|left| - 1] == Last(left) + right[0]
    ensures forall k :: |left| <= k < |r| ==> r[k] == right[k - |left| + 1]
  {
    left[..|left| - 1] + [Last(left) + right[0]] + right[1..]
  }

  lemma SplitOneMore(s: string, c: char)
    ensures Split(s + [c]) == Extend(Split(s), c)
  {
    assert (s + [c])[..|s|] == s;
  }

  lemma {:induction false} SplitConcat(a: string, b: string)
    ensures Split(a + b) == Glue(Split(a), Split(b))
  {
    if b == "" {
      assert a + b == a;
      assert Last(Split(a)) + "" == Last(Split(a));
    } else {
      var b' := b[..|b| - 1];
      SplitConcat(a, b');
      assert a + b == (a + b') + [b[|b| - 1]];
      SplitOneMore(a + b', b[|b| - 1]);
      GlueExtend(Split(a), Split(b'), b[|b| - 1]);
    }
  }

  lemma GlueExtend(left: seq<string>, right: seq<string>, c: char)
    requires |left| >= 1 && |right| >= 1
    ensures Glue(left, Extend(right, c)) == Extend(Glue(left, right), c)
  {
    var g, h := Glue(left, Extend(right, c)), Extend(Glue(left, right), c);
    assert |g| == |h|;
    if |right| == 1 && c != '\n' {
      assert Last(left) + (right[0] + [c]) == (Last(left) + right[0]) + [c];
    }
    forall k | 0 <= k < |g| ensures g[k] == h[k] {
    }
  }

  /** Ropey's `char_to_line`. */
  function LineOf(s: string, pos: nat): nat
    requires pos <= |s|
  {
    |Split(s[..pos])| - 1
  }

  /** Column of `pos` inside its line. */
  function ColOf(s: string, pos: nat): nat
    requires pos <= |s|
  {
    |Last(Split(s[..pos]))|
  }

  function TotalLength(lines: seq<string>): nat {
    if lines == [] then 0 else TotalLength(lines[..|lines| - 1]) + |Last(lines)| + 1
  }

  /** Ropey's `line_to_char`: the offset at which line `line` begins. */
  function LineStart(s: string, line: nat): nat
    requires line < |Split(s)|
  {
    TotalLength(Split(s)[..line])
  }

  /** Ropey's `len_lines`, phantom line included. */
  function RawLineCount(s: string): nat {
    |Split(s)|
  }

  /** The line count shown to the user: no phantom line after a final LF. */
  function LineCount(s: string): nat {
    if |Split(s)| > 1 && |s| > 0 && s[|s| - 1] == '\n' then |Split(s)| - 1 else |Split(s)|
  }

  /** Content length of a line; 0 past the shown lines. */
  function LineLen(s: string, line: nat): nat {
    if line < LineCount(s) then |Split(s)[line]| else 0
  }

  lemma {:induction false} SplitLength(s: string)
    ensures TotalLength(Split(s)) == |s| + 1
  {
    if s == "" {
      assert Split(s)[..0] == [];
    } else {
      SplitLength(s[..|s| - 1]);
      ExtendLength(Split(s[..|s| - 1]), s[|s| - 1]);
    }
  }

  lemma ExtendLength(lines: seq<string>, c: char)
    requires |lines| >= 1
    ensures TotalLength(Extend(lines, c)) == TotalLength(lines) + 1
  {
    if c == '\n' {
      assert (lines + [""])[..|lines|] == lines;
    } else {
      assert Extend(lines, c)[..|lines| - 1] == lines[..|lines| - 1];
    }
  }

  /** Going to (line, column) and back is exact, and the column is within the
      visible line, so no clamp to the line ever moves an offset. */
  lemma LineColRoundTrip(s: string, pos: nat)
    requires pos <= |s|
    ensures LineOf(s, pos) < RawLineCount(s)
    ensures LineStart(s, LineOf(s, pos)) + ColOf(s, pos) == pos
    ensures ColOf(s, pos) <= LineLen(s, LineOf(s, pos))
  {
    var a, b := s[..pos], s[pos..];
    assert s == a + b;
    SplitConcat(a, b);
    SplitLength(a);
    var k := |Split(a)| - 1;
    assert Split(s)[..k] == Split(a)[..k];
    if k >= LineCount(s) {
      PhantomLineIsEmpty(s);
      assert |Last(Split(s))| == 0;
      assert Split(s)[k] == Last(Split(a)) + Split(b)[0];
    }
  }

  lemma PhantomLineIsEmpty(s: string)
    requires LineCount(s) < |Split(s)|
    ensures LineCount(s) == |Split(s)| - 1 && Last(Split(s)) == ""
  {
  }

  /** A text without a line break is a single line. */
  lemma {:induction false} SplitWithoutBreak(s: string)
    requires '\n' !in s
    ensures Split(s) == [s]
  {
    if s != "" {
      SplitWithoutBreak(s[..|s| - 1]);
      assert s[..|s| - 1] + [s[|s| - 1]] == s;
    }
  }

  lemma {:induction false} SplitLinesHaveNoBreak(s: string, k: nat)
    requires k < |Split(s)|
    ensures '\n' !in Split(s)[k]
  {
    if s != "" {
      var before := Split(s[..|s| - 1]);
      if k < |before| {
        SplitLinesHaveNoBreak(s[..|s| - 1], k);
      }
    }
  }

  /** Number of line breaks, as the row count of a text. */
  lemma {:induction false} SplitSingle(s: string)
    ensures |Split(s)| == 1 <==> '\n' !in s
  {
    if s != "" {
      SplitSingle(s[..|s| - 1]);
      assert s == s[..|s| - 1] + [s[|s| - 1]];
    }
  }

  /** The end of a line's content is an offset of the text. */
  lemma LineEndFits(s: string, line: nat)
    requires line < RawLineCount(s)
    ensures LineStart(s, line) + LineLen(s, line) <= |s|
  {
    SplitLength(s);
    TotalLengthPrefix(Split(s), line);
    if line >= LineCount(s) {
      PhantomLineIsEmpty(s);
    }
  }

  lemma {:induction false} TotalLengthPrefix(lines: seq<string>, k: nat)
    requires k < |lines|
    ensures TotalLength(lines[..k]) + |lines[k]| + 1 <= TotalLength(lines)
  {
    if k < |lines| - 1 {
      var init := lines[..|lines| - 1];
      TotalLengthPrefix(init, k);
      assert init[..k] == lines[..k];
    }
  }

  // ----- what a split is -------------------------------------------------------

  /** The lines with a break between each and the next. */
  function Join(lines: seq<string>): string {
    if lines == [] then ""
    else if |lines| == 1 then lines[0]
    else Join(lines[..|lines| - 1]) + "\n" + lines[|lines| - 1]
  }

  lemma JoinAppend(init: seq<string>, last: string)
    ensures Join(init + [last]) == if init == [] then last else Join(init) + "\n" + last
  {
    assert (init + [last])[..|init|] == init;
  }

  lemma JoinLonger(init: seq<string>, last: string, c: char)
    ensures Join(init + [last + [c]]) == Join(init + [last]) + [c]
  {
    JoinAppend(init, last);
    JoinAppend(init, last + [c]);
    if init != [] {
      AppendAssociates(Join(init) + "\n", last, c);
    }
  }

  lemma AppendAssociates(a: string, b: string, c: char)
    ensures a + (b + [c]) == (a + b) + [c]
  {
  }

  lemma JoinBreak(lines: seq<string>)
    requires |lines| >= 1
    ensures Join(lines + [""]) == Join(lines) + "\n"
  {
    JoinAppend(lines, "");
    assert Join(lines) + "\n" + "" == Join(lines) + "\n";
  }

  lemma ExtendForm(lines: seq<string>, c: char) returns (init: seq<string>, last: string)
    requires |lines| >= 1
    ensures lines == init + [last]
    ensures Extend(lines, c) == if c == '\n' then lines + [""] else init + [last + [c]]
  {
    init, last := lines[..|lines| - 1], lines[|lines| - 1];
  }

  lemma JoinExtend(lines: seq<string>, c: char)
    requires |lines| >= 1
    ensures Join(Extend(lines, c)) == Join(lines) + [c]
  {
    var init, last := ExtendForm(lines, c);
    JoinLonger(init, last, c);
    JoinBreak(lines);
  }

  /** The lines of a text, put together again with breaks between them, are the text. */
  lemma {:induction false} JoinOfSplit(s: string)
    ensures Join(Split(s)) == s
  {
    if s != "" {
      JoinOfSplit(s[..|s| - 1]);
      JoinExtend(Split(s[..|s| - 1]), s[|s| - 1]);
    }
  }

  /** What stands behind the last break of `s`. */
  predicate BehindLastBreak(s: string, last: string) {
    |last| <= |s| && s[|s| - |last|..] == last && '\n' !in last &&
    (|last| < |s| ==> s[|s| - |last| - 1] == '\n')
  }

  lemma BehindLastBreakNext(s: string, last: string, c: char, s': string, last': string)
    requires BehindLastBreak(s, last) && s' == s + [c] && last' == if c == '\n' then "" else last + [c]
    ensures BehindLastBreak(s', last')
  {
    assert c != '\n' ==> s'[|s| - |last|..] == last + [c];
  }

  lemma LastOfExtended(lines: seq<string>, c: char)
    requires |lines| >= 1
    ensures Last(Extend(lines, c)) == if c == '\n' then "" else Last(lines) + [c]
  {
  }

  lemma {:induction false} LastLine(s: string)
    ensures BehindLastBreak(s, Last(Split(s)))
  {
    if s != "" {
      LastLine(s[..|s| - 1]);
      LastOfExtended(Split(s[..|s| - 1]), s[|s| - 1]);
      BehindLastBreakNext(s[..|s| - 1], Last(Split(s[..|s| - 1])), s[|s| - 1], s, Last(Split(s)));
    }
  }

  /** A position is `ColOf` characters behind the last break before it. */
  lemma ColumnCounts(s: string, pos: nat)
    requires pos <= |s|
    ensures ColOf(s, pos) <= pos && forall k :: pos - ColOf(s, pos) <= k < pos ==> s[k] != '\n'
    ensures ColOf(s, pos) < pos ==> s[pos - ColOf(s, pos) - 1] == '\n'
  {
    LastLine(s[..pos]);
    var last := Last(Split(s[..pos]));
    forall k | pos - |last| <= k < pos ensures s[k] != '\n' {
      assert s[k] == s[..pos][pos - |last|..][k - (pos - |last|)] == last[k - (pos - |last|)];
    }
  }

  /** Two positions are on one line exactly when no break stands between them. */
  lemma SameLineExactly(s: string, a: nat, b: nat)
    requires a <= b <= |s|
    ensures LineOf(s, a) <= LineOf(s, b)
    ensures LineOf(s, a) == LineOf(s, b) <==> '\n' !in s[a..b]
  {
    assert s[..b] == s[..a] + s[a..b];
    SplitConcat(s[..a], s[a..b]);
    SplitSingle(s[a..b]);
  }

  /** Every line is shown but the empty one behind a break at the end of the text. */
  lemma ShownLines(s: string)
    ensures LineCount(s) == RawLineCount(s) <==> s == "" || s[|s| - 1] != '\n'
    ensures s != "" && s[|s| - 1] == '\n' ==> LineCount(s) == RawLineCount(s) - 1 && Last(Split(s)) == ""
  {
    if s != "" {
      assert Split(s) == Extend(Split(s[..|s| - 1]), s[|s| - 1]);
    }
  }
}
