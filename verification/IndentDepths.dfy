/** How deep a line is indented: by the delimiters open above it, less those it closes
    first (ovim-core/src/auto_indent.rs). */
module IndentDepths {
  import opened Basics
  import opened Scanner
  import opened Indentation
  import opened AutoIndent

  // ----- leading closers -----------------------------------------------------------

  predicate IsCloser(c: char) {
    c == '}' || c == ')' || c == ']'
  }

  /** Closing delimiters in front of the first character that is neither one nor blank. */
  function ClosersAhead(s: string): nat {
    if s == "" then 0
    else if IsSpace(s[0]) then ClosersAhead(s[1..])
    else if IsCloser(s[0]) then 1 + ClosersAhead(s[1..])
    else 0
  }

  predicate HasCode(s: string) {
    exists k :: 0 <= k < |s| && !IsSpace(s[k])
  }

  /** No comment begins with a closing delimiter. */
  predicate MarksAreNoClosers(p: Profile) {
    (forall k :: 0 <= k < |p.lineComments| ==> NoCloser(p.lineComments[k])) &&
    forall k :: 0 <= k < |p.blockComments| ==> NoCloser(p.blockComments[k].0)
  }

  predicate NoCloser(mark: string) {
    mark != "" && !IsCloser(mark[0])
  }

  /** Behind such a token no delimiter leads any more. */
  predicate Leads(t: Token, scan: LineScan) {
    t.scan.leadingClosers == scan.leadingClosers && t.scan.hasCode && (t.stop || !t.leading)
  }

  /** Once something else has come first, no delimiter leads. */
  lemma TokenBehindCode(rest: string, wordBefore: bool, st: Option<Multiline>, p: Profile, scan: LineScan)
    requires rest != "" && SaneProfile(p) && SaneState(st) && scan.hasCode
    ensures Leads(NextToken(rest, wordBefore, st, false, p, scan), scan)
  {
  }

  lemma {:induction false} BehindCode(rest: string, wordBefore: bool, st: Option<Multiline>, p: Profile, scan: LineScan)
    requires SaneProfile(p) && SaneState(st) && scan.hasCode
    ensures var r := ScanRest(rest, wordBefore, st, false, p, scan).0;
            r.leadingClosers == scan.leadingClosers && r.hasCode
    decreases |rest|
  {
    if rest != "" {
      TokenBehindCode(rest, wordBefore, st, p, scan);
      var t := NextToken(rest, wordBefore, st, false, p, scan);
      assert ScanRest(rest, wordBefore, st, false, p, scan) == Behind(rest, p, t);
      if !t.stop {
        BehindCode(rest[t.used..], IsWord(rest[t.used - 1]), t.state, p, t.scan);
      }
    }
  }

  lemma FirstOther(rest: string, wordBefore: bool, p: Profile, scan: LineScan)
    requires rest != "" && SaneProfile(p) && !IsSpace(rest[0]) && !IsCloser(rest[0])
    ensures Leads(NextToken(rest, wordBefore, None, true, p, scan), scan)
  {
  }

  lemma NoMarkAtCloser(rest: string, pairs: seq<(string, string)>)
    requires rest != "" && IsCloser(rest[0])
    requires forall k :: 0 <= k < |pairs| ==> NoCloser(pairs[k].0)
    ensures BlockStart(rest, pairs) == None
  {
    if pairs != [] {
      assert NoCloser(pairs[0].0);
    }
  }

  lemma LeadingCloser(rest: string, wordBefore: bool, p: Profile, scan: LineScan)
    requires rest != "" && SaneProfile(p) && MarksAreNoClosers(p) && IsCloser(rest[0])
    ensures NextToken(rest, wordBefore, None, true, p, scan)
            == Token(1, false, true, Code(scan).(delimiters := scan.delimiters + [Close(rest[0])],
                                                 leadingClosers := scan.leadingClosers + 1), None)
  {
    NoMarkAtCloser(rest, p.blockComments);
    assert !LineCommentAt(rest, p.lineComments);
  }

  lemma {:induction false} LeadingInCode(rest: string, wordBefore: bool, p: Profile, scan: LineScan)
    requires SaneProfile(p) && MarksAreNoClosers(p)
    ensures var r := ScanRest(rest, wordBefore, None, true, p, scan).0;
            r.leadingClosers == scan.leadingClosers + ClosersAhead(rest) &&
              (r.hasCode <==> scan.hasCode || HasCode(rest))
    decreases |rest|
  {
    if rest != "" {
      var t := NextToken(rest, wordBefore, None, true, p, scan);
      assert ScanRest(rest, wordBefore, None, true, p, scan) == Behind(rest, p, t);
      assert HasCode(rest) <==> !IsSpace(rest[0]) || HasCode(rest[1..]) by {
        if HasCode(rest[1..]) {
          var k :| 0 <= k < |rest[1..]| && !IsSpace(rest[1..][k]);
          assert !IsSpace(rest[k + 1]);
        }
      }
      if IsSpace(rest[0]) {
        assert t == Token(1, false, true, scan, None);
        LeadingInCode(rest[1..], IsWord(rest[0]), p, scan);
      } else if IsCloser(rest[0]) {
        LeadingCloser(rest, wordBefore, p, scan);
        LeadingInCode(rest[1..], IsWord(rest[0]), p, t.scan);
      } else {
        FirstOther(rest, wordBefore, p, scan);
        if !t.stop {
          BehindCode(rest[t.used..], IsWord(rest[t.used - 1]), t.state, p, t.scan);
        }
      }
    }
  }

  /** The closing delimiters a line begins with, and whether it has code. */
  lemma LeadingExactly(line: string, st: Option<Multiline>, p: Profile)
    requires SaneProfile(p) && SaneState(st) && MarksAreNoClosers(p)
    ensures var r := Scan(line, st, p).0;
            r.leadingClosers == (if st.None? then ClosersAhead(line) else 0) &&
            (r.hasCode <==> if st.None? then HasCode(line) else line != "")
  {
    if st.None? {
      LeadingInCode(line, false, p, NOTHING);
    } else if line != "" {
      var t := NextToken(line, false, st, true, p, NOTHING);
      assert Scan(line, st, p) == Behind(line, p, t);
      if !t.stop {
        BehindCode(line[t.used..], IsWord(line[t.used - 1]), t.state, p, t.scan);
      }
    }
  }

  lemma LineMarksAreNoClosers(language: Option<Language>)
    ensures forall k :: 0 <= k < |ForLanguage(language).lineComments| ==>
            NoCloser(ForLanguage(language).lineComments[k])
  {
  }

  lemma NoLanguageMarksClosers(language: Option<Language>)
    ensures MarksAreNoClosers(ForLanguage(language))
  {
    LineMarksAreNoClosers(language);
  }

  // ----- nesting depth ---------------------------------------------------------------

  /** How many more delimiters open than close. */
  function Net(ds: seq<Delimiter>): int {
    if ds == [] then 0 else Net(ds[..|ds| - 1]) + if ds[|ds| - 1].Open? then 1 else -1
  }

  lemma NetAppend(a: seq<Delimiter>, d: Delimiter)
    ensures Net(a + [d]) == Net(a) + if d.Open? then 1 else -1
  {
    assert (a + [d])[..|a|] == a;
  }

  lemma {:induction false} DeepenedConcat(depth: nat, a: seq<Delimiter>, b: seq<Delimiter>)
    ensures Deepened(depth, a + b) == Deepened(Deepened(depth, a), b)
  {
    if b == [] {
      assert a + b == a;
    } else {
      DeepenedConcat(depth, a, b[..|b| - 1]);
      assert (a + b)[..|a + b| - 1] == a + b[..|b| - 1];
    }
  }

  /** The most that any of the last delimiters open beyond what they close. */
  predicate MostOpen(ds: seq<Delimiter>, n: nat) {
    (forall j :: 0 <= j <= |ds| ==> Net(ds[j..]) <= n) && exists j :: 0 <= j <= |ds| && Net(ds[j..]) == n
  }

  /** A closing delimiter with nothing to close is ignored: the depth is the most that any
      of the last delimiters leave open. */
  lemma {:induction false} DepthIsMostOpen(ds: seq<Delimiter>)
    ensures MostOpen(ds, Deepened(0, ds))
  {
    if ds == [] {
      assert Net(ds[0..]) == 0;
    } else {
      var init, last := ds[..|ds| - 1], ds[|ds| - 1];
      DepthIsMostOpen(init);
      forall j | 0 <= j <= |init| ensures Net(ds[j..]) == Net(init[j..]) + if last.Open? then 1 else -1 {
        assert ds[j..] == init[j..] + [last];
        NetAppend(init[j..], last);
      }
      assert Net(ds[|ds|..]) == 0;
      var j :| 0 <= j <= |init| && Net(init[j..]) == Deepened(0, init);
      assert Net(ds[j..]) == Deepened(0, ds) || Net(ds[|ds|..]) == Deepened(0, ds);
    }
  }

  /** The delimiters close no more than `least` below where they begin, at any point. */
  predicate NeverBelow(ds: seq<Delimiter>, least: int) {
    forall j :: 0 <= j <= |ds| ==> Net(ds[..j]) >= least
  }

  /** With something to close for every closing delimiter, depth counts opens minus closes. */
  lemma {:induction false} DepthCounts(depth: nat, ds: seq<Delimiter>)
    requires NeverBelow(ds, 0 - depth)
    ensures Deepened(depth, ds) == depth + Net(ds)
  {
    if ds != [] {
      var init := ds[..|ds| - 1];
      forall j | 0 <= j <= |init| ensures Net(init[..j]) >= 0 - depth {
        assert init[..j] == ds[..j];
      }
      DepthCounts(depth, init);
      assert ds[..|ds|] == ds;
    }
  }

  /** The delimiters of line `k`. */
  function LineDelimiters(lines: seq<string>, k: nat, p: Profile): seq<Delimiter>
    requires k < |lines| && SaneProfile(p)
  {
    Scan(lines[k], ContextBefore(lines, k, p).state, p).0.delimiters
  }

  function AllDelimiters(lines: seq<string>, p: Profile): (r: seq<seq<Delimiter>>)
    requires SaneProfile(p)
    ensures |r| == |lines| && forall k :: 0 <= k < |r| ==> r[k] == LineDelimiters(lines, k, p)
  {
    seq(|lines|, k requires 0 <= k < |lines| => LineDelimiters(lines, k, p))
  }

  /** Those of the lines from `i` to `k`, `k` not included, in one sequence. */
  function Between(ds: seq<seq<Delimiter>>, i: nat, k: nat): seq<Delimiter>
    requires i <= k <= |ds|
  {
    if i == k then [] else Between(ds, i, k - 1) + ds[k - 1]
  }

  lemma DepthNext(lines: seq<string>, k: nat, p: Profile)
    requires k < |lines| && SaneProfile(p)
    ensures ContextBefore(lines, k + 1, p).depth
            == Deepened(ContextBefore(lines, k, p).depth, LineDelimiters(lines, k, p))
  {
    NextContext(lines, k, p);
  }

  lemma {:induction false} DepthOfLine(lines: seq<string>, ds: seq<seq<Delimiter>>, k: nat, p: Profile)
    requires k <= |lines| && SaneProfile(p) && ds == AllDelimiters(lines, p)
    ensures ContextBefore(lines, k, p).depth == Deepened(0, Between(ds, 0, k))
  {
    if k > 0 {
      DepthOfLine(lines, ds, k - 1, p);
      DeepenedConcat(0, Between(ds, 0, k - 1), ds[k - 1]);
      DepthNext(lines, k - 1, p);
    }
  }

  lemma {:induction false} BetweenConcat(ds: seq<seq<Delimiter>>, i: nat, j: nat, k: nat)
    requires i <= j <= k <= |ds|
    ensures Between(ds, i, k) == Between(ds, i, j) + Between(ds, j, k)
    decreases k - j
  {
    if j < k {
      BetweenConcat(ds, i, j, k - 1);
      Associate(Between(ds, i, j), Between(ds, j, k - 1), ds[k - 1]);
    }
  }

  /** The depth before a line is the most that any of the last delimiters above it leave
      open; when none of them closes what was not open, opens minus closes. */
  lemma DepthBefore(lines: seq<string>, k: nat, p: Profile)
    requires k <= |lines| && SaneProfile(p)
    ensures var above := Between(AllDelimiters(lines, p), 0, k);
            MostOpen(above, ContextBefore(lines, k, p).depth) &&
            (NeverBelow(above, 0) ==> ContextBefore(lines, k, p).depth == Net(above))
  {
    var above := Between(AllDelimiters(lines, p), 0, k);
    DepthOfLine(lines, AllDelimiters(lines, p), k, p);
    OpenIsDepth(above, ContextBefore(lines, k, p).depth);
  }

  lemma OpenIsDepth(above: seq<Delimiter>, depth: nat)
    requires depth == Deepened(0, above)
    ensures MostOpen(above, depth) && (NeverBelow(above, 0) ==> depth == Net(above))
  {
    DepthIsMostOpen(above);
    if NeverBelow(above, 0) {
      DepthCounts(0, above);
    }
  }

  // ----- the planned blanks -----------------------------------------------------------

  /** The closing delimiters that put a line further out. */
  function Outdent(lines: seq<string>, k: nat, p: Profile): nat
    requires k < |lines| && SaneProfile(p)
  {
    if ContextBefore(lines, k, p).state.None? then ClosersAhead(lines[k]) else 0
  }

  /** How deep a line belongs. */
  function Nesting(lines: seq<string>, k: nat, p: Profile): nat
    requires k < |lines| && SaneProfile(p)
  {
    var depth, outdent := ContextBefore(lines, k, p).depth, Outdent(lines, k, p);
    if depth >= outdent then depth - outdent else 0
  }

  /** Part of a literal that began above, or without anything but blanks in code. */
  predicate IsLeftAlone(lines: seq<string>, k: nat, p: Profile)
    requires k < |lines| && SaneProfile(p)
  {
    match ContextBefore(lines, k, p).state
    case None => !HasCode(lines[k])
    case Some(Literal(_)) => true
    case Some(BlockComment(_, _, _)) => lines[k] == ""
  }

  /** What the plan for a line comes to: the line keeps its blanks, or gets blanks of the
      width of its nesting, and the cursor column is behind them. */
  predicate Indents(line: string, plan: PlannedIndent, alone: bool, nesting: nat, o: Options) {
    plan.leadingChars == LeadingCount(line) && plan.cursorCol == LeadingCount(Replaced(line, plan)) &&
    if alone then plan.replacement == None
    else
      AllBlank(Leading(Replaced(line, plan))) &&
      BlankWidth(Leading(Replaced(line, plan)), 0, Normalized(o).tabWidth) == nesting * Normalized(o).shiftWidth
  }

  lemma PlannedAlone(line: string, k: nat, c: Context, p: Profile, o: Options, nesting: nat)
    requires SaneProfile(p) && SaneState(c.state)
    requires !Scan(line, c.state, p).0.hasCode || (c.state.Some? && c.state.value.Literal?)
    ensures Indents(line, PlannedLine(line, k, c, p, o), true, nesting, o)
  {
    assert Desired(line, c, p, o) == Leading(line);
  }

  lemma ReplacedBlanks(line: string, desired: string, plan: PlannedIndent)
    requires AllBlank(desired) && plan.leadingChars == |Leading(line)|
    requires plan.replacement == if desired != Leading(line) then Some(desired) else None
    ensures Leading(Replaced(line, plan)) == desired
  {
    assert line == Leading(line) + Body(line);
    LeadingOfJoined(desired, Body(line));
    assert Replaced(line, plan) == desired + Body(line);
  }

  lemma PlannedCode(line: string, k: nat, c: Context, p: Profile, o: Options, nesting: nat)
    requires SaneProfile(p) && SaneState(c.state)
    requires var scan := Scan(line, c.state, p).0;
             scan.hasCode && !(c.state.Some? && c.state.value.Literal?) &&
             nesting == if c.depth >= scan.leadingClosers then c.depth - scan.leadingClosers else 0
    ensures Indents(line, PlannedLine(line, k, c, p, o), false, nesting, o)
  {
    var desired := EncodeIndent(o, nesting * Normalized(o).shiftWidth);
    assert Desired(line, c, p, o) == desired;
    EncodeReachesWidth(o, nesting * Normalized(o).shiftWidth);
    ReplacedBlanks(line, desired, PlannedLine(line, k, c, p, o));
  }

  /** Blank lines of code and the bodies of literals keep their blanks. Every other line gets
      one shift width for each delimiter open above it, less those it closes first. */
  lemma PlannedByNesting(lines: seq<string>, k: nat, language: Option<Language>, o: Options)
    requires k < |lines|
    ensures SaneProfile(ForLanguage(language))
    ensures var p := ForLanguage(language);
            Indents(lines[k], Planned(lines, k, p, o), IsLeftAlone(lines, k, p), Nesting(lines, k, p), o)
  {
    var p := ForLanguage(language);
    EveryLanguageIsSane(language);
    NoLanguageMarksClosers(language);
    var c := ContextBefore(lines, k, p);
    LeadingExactly(lines[k], c.state, p);
    if IsLeftAlone(lines, k, p) {
      PlannedAlone(lines[k], k, c, p, o, Nesting(lines, k, p));
    } else {
      PlannedCode(lines[k], k, c, p, o, Nesting(lines, k, p));
    }
  }

  /** What two stretches of delimiters make of the depth, when neither closes more than
      `m` below where it begins, the second nothing at all. */
  lemma DepthMoves(a: seq<Delimiter>, b: seq<Delimiter>, c: seq<Delimiter>, m: nat, n: nat)
    requires m <= Deepened(0, a) && NeverBelow(b, 0 - m) && Net(b) == n - m && NeverBelow(c, 0) && Net(c) == 0
    ensures Deepened(0, a + (b + c)) == Deepened(0, a) - m + n
  {
    DeepenedConcat(0, a, b + c);
    DeepenedConcat(Deepened(0, a), b, c);
    DepthCounts(Deepened(0, a), b);
    DepthCounts(Deepened(0, a) - m + n, c);
  }

  lemma BetweenSplit(ds: seq<seq<Delimiter>>, i: nat, k: nat)
    requires i < k <= |ds|
    ensures Between(ds, 0, k) == Between(ds, 0, i) + (ds[i] + Between(ds, i + 1, k))
  {
    BetweenConcat(ds, i, i + 1, k);
    BetweenConcat(ds, 0, i, k);
    assert Between(ds, i, i + 1) == [] + ds[i] == ds[i];
  }

  lemma DepthAtCloser(ds: seq<seq<Delimiter>>, i: nat, k: nat, m: nat, n: nat)
    requires i < k <= |ds| && m <= Deepened(0, Between(ds, 0, i))
    requires NeverBelow(ds[i], 0 - m) && Net(ds[i]) == n - m
    requires NeverBelow(Between(ds, i + 1, k), 0) && Net(Between(ds, i + 1, k)) == 0
    ensures Deepened(0, Between(ds, 0, k)) == Deepened(0, Between(ds, 0, i)) - m + n
  {
    BetweenSplit(ds, i, k);
    DepthMoves(Between(ds, 0, i), ds[i], Between(ds, i + 1, k), m, n);
  }

  lemma NestingIs(lines: seq<string>, k: nat, p: Profile, depth: nat, n: nat)
    requires k < |lines| && SaneProfile(p)
    requires ContextBefore(lines, k, p).depth == depth >= n == Outdent(lines, k, p)
    ensures Nesting(lines, k, p) == depth - n
  {
  }

  /** A line that closes first what line `i` left open, and nothing else, belongs as deep as
      line `i`. */
  lemma ClosersAlign(lines: seq<string>, i: nat, k: nat, p: Profile, m: nat, n: nat, ds: seq<seq<Delimiter>>)
    requires i < k < |lines| && SaneProfile(p) && ds == AllDelimiters(lines, p)
    requires m == Outdent(lines, i, p) <= ContextBefore(lines, i, p).depth && n == Outdent(lines, k, p)
    requires NeverBelow(ds[i], 0 - m) && Net(ds[i]) == n - m
    requires NeverBelow(Between(ds, i + 1, k), 0) && Net(Between(ds, i + 1, k)) == 0
    ensures Nesting(lines, k, p) == Nesting(lines, i, p)
  {
    DepthOfLine(lines, ds, i, p);
    DepthOfLine(lines, ds, k, p);
    DepthAtCloser(ds, i, k, m, n);
    NestingIs(lines, i, p, ContextBefore(lines, i, p).depth, m);
    NestingIs(lines, k, p, ContextBefore(lines, k, p).depth, n);
  }
}
