/** Structural reindenting (ovim-core/src/auto_indent.rs). */
module AutoIndent {
  import opened Basics
  import opened Scanner
  import opened Indentation

  // ----- scan_line, as its loops run -----------------------------------------------

  predicate StartsWith(line: string, index: nat, pattern: string) {
    index + |pattern| <= |line| && line[index..index + |pattern|] == pattern
  }

  lemma StartsWithIsPrefix(line: string, index: nat, pattern: string)
    requires index <= |line|
    ensures StartsWith(line, index, pattern) <==> pattern <= line[index..]
  {
    if StartsWith(line, index, pattern) {
      assert line[index..][..|pattern|] == line[index..index + |pattern|];
    }
  }

  function CommentFrom(line: string, next: nat, start: string, end: string, depth: nat): (nat, nat)
    requires next <= |line| && start != "" && end != "" && depth >= 1
  {
    CommentEnd(line[next..], start, end, depth)
  }

  function Further(n: nat, r: (nat, nat)): (nat, nat) {
    (n + r.0, r.1)
  }

  /** One turn of the comment loop. */
  lemma CommentTurn(line: string, next: nat, start: string, end: string, depth: nat)
    requires next < |line| && start != "" && end != "" && depth >= 1
    ensures CommentFrom(line, next, start, end, depth)
            == if StartsWith(line, next, end) then
                 if depth == 1 then (|end|, 0)
                 else Further(|end|, CommentFrom(line, next + |end|, start, end, depth - 1))
               else if StartsWith(line, next, start) then
                 Further(|start|, CommentFrom(line, next + |start|, start, end, depth + 1))
               else Further(1, CommentFrom(line, next + 1, start, end, depth))
  {
    StartsWithIsPrefix(line, next, end);
    StartsWithIsPrefix(line, next, start);
    if StartsWith(line, next, end) {
      assert line[next..][|end|..] == line[next + |end|..];
    } else if StartsWith(line, next, start) {
      assert line[next..][|start|..] == line[next + |start|..];
    } else {
      assert line[next..][1..] == line[next + 1..];
    }
  }

  /** Past one mark or character of a comment at depth `depth`. */
  method SkipTurn(line: string, index: nat, start: string, end: string, depth: nat) returns (next: nat, left: nat)
    requires index < |line| && start != "" && end != "" && depth >= 1
    ensures index < next <= |line|
    ensures CommentFrom(line, index, start, end, depth)
            == if left == 0 then (next - index, 0) else Further(next - index, CommentFrom(line, next, start, end, left))
  {
    CommentTurn(line, index, start, end, depth);
    if StartsWith(line, index, end) {
      next, left := index + |end|, depth - 1;
    } else if StartsWith(line, index, start) {
      next, left := index + |start|, depth + 1;
    } else {
      next, left := index + 1, depth;
    }
  }

  method SkipComment(line: string, index: nat, start: string, end: string, depth: nat) returns (next: nat, left: nat)
    requires index <= |line| && start != "" && end != "" && depth >= 1
    ensures (next - index, left) == CommentEnd(line[index..], start, end, depth)
  {
    next, left := index, depth;
    while next < |line|
      invariant index <= next <= |line| && left >= 1
      invariant CommentFrom(line, index, start, end, depth)
                == Further(next - index, CommentFrom(line, next, start, end, left))
      decreases |line| - next
    {
      next, left := SkipTurn(line, next, start, end, left);
      if left == 0 {
        return;
      }
    }
  }

  method QuotedLiteralEnd(line: string, start: nat, quote: char) returns (r: Option<nat>)
    requires start < |line|
    ensures r.None? <==> QuotedEnd(line[start + 1..], quote, false).None?
    ensures r.Some? ==> r.value == start + 1 + QuotedEnd(line[start + 1..], quote, false).value
  {
    var index, escaped := start + 1, false;
    while index < |line|
      invariant start + 1 <= index <= |line|
      invariant QuotedEnd(line[start + 1..], quote, false).None? <==> QuotedEnd(line[index..], quote, escaped).None?
      invariant QuotedEnd(line[index..], quote, escaped).Some? ==>
                  start + 1 + QuotedEnd(line[start + 1..], quote, false).value
                  == index + QuotedEnd(line[index..], quote, escaped).value
    {
      assert line[index..][1..] == line[index + 1..];
      if escaped {
        escaped := false;
      } else if line[index] == '\\' {
        escaped := true;
      } else if line[index] == quote {
        return Some(index + 1);
      }
      index := index + 1;
    }
    return None;
  }

  method SkipHashes(line: string, start: nat) returns (cursor: nat)
    requires start <= |line|
    ensures cursor == start + Hashes(line[start..])
  {
    cursor := start;
    while cursor < |line| && line[cursor] == '#'
      invariant start <= cursor <= |line|
      invariant Hashes(line[start..]) == cursor - start + Hashes(line[cursor..])
    {
      assert line[cursor..][1..] == line[cursor + 1..];
      cursor := cursor + 1;
    }
  }

  method RustRawLiteral(line: string, index: nat) returns (r: Option<(nat, string)>)
    requires index < |line|
    ensures r == if index > 0 && IsWord(line[index - 1]) then None else RustRaw(line[index..])
  {
    if index > 0 && IsWord(line[index - 1]) {
      return None;
    }
    var cursor := index;
    if line[cursor] == 'b' || line[cursor] == 'c' {
      cursor := cursor + 1;
    }
    if cursor >= |line| || line[cursor] != 'r' {
      return None;
    }
    cursor := cursor + 1;
    var hashesStart := cursor;
    cursor := SkipHashes(line, hashesStart);
    assert line[index..][hashesStart - index..] == line[hashesStart..];
    if cursor >= |line| || line[cursor] != '"' {
      return None;
    }
    return Some((cursor + 1 - index, "\"" + Repeat('#', cursor - hashesStart)));
  }

  predicate WordBefore(line: string, index: nat)
    requires index <= |line|
  {
    index > 0 && IsWord(line[index - 1])
  }

  /** One turn of the scanning loop. */
  method ReadToken(line: string, index: nat, st: Option<Multiline>, leading: bool, p: Profile,
                   scan: LineScan) returns (t: Token)
    requires index < |line| && SaneProfile(p) && SaneState(st)
    ensures t == NextToken(line[index..], WordBefore(line, index), st, leading, p, scan)
  {
    if st.Some? {
      match st.value {
        case BlockComment(start, end, depth) =>
          var next, left := SkipComment(line, index, start, end, depth);
          t := Token(next - index, false, false, Code(scan),
                     if left > 0 then Some(BlockComment(start, end, left)) else None);
        case Literal(end) =>
          var found := Find(line[index..], end);
          if found.Some? {
            t := Token(found.value + |end|, false, false, Code(scan), None);
          } else {
            t := Token(0, true, false, Code(scan), st);
          }
      }
    } else {
      t := ReadCode(line, index, leading, p, scan);
    }
  }

  method ReadCode(line: string, index: nat, leading: bool, p: Profile, scan: LineScan) returns (t: Token)
    requires index < |line| && SaneProfile(p)
    ensures t == CodeToken(line[index..], WordBefore(line, index), leading, p, scan)
  {
    var rest, c := line[index..], line[index];
    if IsSpace(c) {
      return Token(1, false, leading, scan, None);
    }
    var block := BlockStart(rest, p.blockComments);
    if block.Some? {
      return Token(|block.value.0|, false, false, Code(scan), Some(BlockComment(block.value.0, block.value.1, 1)));
    }
    if LineCommentAt(rest, p.lineComments) {
      return Token(1, true, leading, Code(scan), None);
    }
    if p.rustRaw {
      var raw := RustRawLiteral(line, index);
      if raw.Some? {
        return LiteralToken(rest, raw.value.0, raw.value.1, scan);
      }
    }
    if p.pythonTriples {
      if "\"\"\"" <= rest {
        return LiteralToken(rest, 3, "\"\"\"", scan);
      }
      if "'''" <= rest {
        return LiteralToken(rest, 3, "'''", scan);
      }
    }
    if p.luaLong && "[[" <= rest {
      return LiteralToken(rest, 2, "]]", scan);
    }
    if c == '\'' || c == '"' || (p.backticks && c == '`') {
      t := ReadQuote(line, index, p, scan);
      return;
    }
    if c == '{' || c == '(' || c == '[' {
      return Token(1, false, false, Code(scan).(delimiters := scan.delimiters + [Open(c)]), None);
    }
    if c == '}' || c == ')' || c == ']' {
      return Token(1, false, leading,
                   Code(scan).(delimiters := scan.delimiters + [Close(c)],
                               leadingClosers := scan.leadingClosers + if leading then 1 else 0), None);
    }
    return Token(1, false, false, Code(scan), None);
  }

  method ReadQuote(line: string, index: nat, p: Profile, scan: LineScan) returns (t: Token)
    requires index < |line|
    ensures t == QuoteToken(line[index..], p, scan)
  {
    var c := line[index];
    var end := QuotedLiteralEnd(line, index, c);
    assert line[index..][1..] == line[index + 1..];
    if end.Some? {
      t := Token(end.value - index, false, false, Code(scan), None);
    } else if c == '\'' && p.rustLifetimes {
      t := Token(1, false, false, Code(scan), None);
    } else if c == '`' {
      t := Token(1, true, false, Code(scan), Some(Literal("`")));
    } else {
      t := Token(1, true, false, Code(scan), None);
    }
  }

  /** The scan of a line from `index` on. */
  function ScanFrom(line: string, index: nat, st: Option<Multiline>, leading: bool, p: Profile,
                    scan: LineScan): (LineScan, Option<Multiline>)
    requires index <= |line| && SaneProfile(p) && SaneState(st)
  {
    ScanRest(line[index..], WordBefore(line, index), st, leading, p, scan)
  }

  /** The scan goes on behind the token, or ends with it. */
  predicate Turns(line: string, index: nat, t: Token, p: Profile, scanned: (LineScan, Option<Multiline>)) {
    SaneProfile(p) && SaneState(t.state) && index + t.used <= |line| && (t.stop || t.used >= 1) &&
    scanned == if t.stop then (t.scan, t.state) else ScanFrom(line, index + t.used, t.state, t.leading, p, t.scan)
  }

  /** What is left behind a token is the line from further on. */
  lemma BehindIsFrom(line: string, index: nat, t: Token, p: Profile)
    requires index < |line| && SaneProfile(p) && SaneState(t.state)
    requires t.used <= |line| - index && (!t.stop ==> t.used >= 1)
    ensures Turns(line, index, t, p, Behind(line[index..], p, t))
  {
    if !t.stop {
      assert line[index..][t.used..] == line[index + t.used..];
    }
  }

  /** One turn of the scanning loop. */
  lemma ScanTurn(line: string, index: nat, st: Option<Multiline>, leading: bool, p: Profile, scan: LineScan, t: Token)
    requires index < |line| && SaneProfile(p) && SaneState(st)
    requires t == NextToken(line[index..], WordBefore(line, index), st, leading, p, scan)
    ensures Turns(line, index, t, p, ScanFrom(line, index, st, leading, p, scan))
  {
    BehindIsFrom(line, index, t, p);
  }

  method ScanLine(line: string, p: Profile, st0: Option<Multiline>)
    returns (scan: LineScan, continuation: bool, st: Option<Multiline>)
    requires SaneProfile(p) && SaneState(st0)
    ensures (scan, st) == Scan(line, st0, p)
    ensures continuation == (st0.Some? && st0.value.Literal?)
  {
    continuation := st0.Some? && st0.value.Literal?;
    scan, st := ScanAll(line, p, st0);
    assert line[0..] == line;
  }

  method ScanAll(line: string, p: Profile, st0: Option<Multiline>) returns (scan: LineScan, st: Option<Multiline>)
    requires SaneProfile(p) && SaneState(st0)
    ensures (scan, st) == ScanFrom(line, 0, st0, true, p, NOTHING)
  {
    scan, st := NOTHING, st0;
    var leading, index := true, 0;
    while index < |line|
      invariant index <= |line| && SaneState(st)
      invariant ScanFrom(line, 0, st0, true, p, NOTHING) == ScanFrom(line, index, st, leading, p, scan)
      decreases |line| - index
    {
      var t := ReadToken(line, index, st, leading, p, scan);
      ScanTurn(line, index, st, leading, p, scan, t);
      scan, st, leading := t.scan, t.state, t.leading;
      if t.stop {
        return;
      }
      index := index + t.used;
    }
  }

  function LeadingCount(line: string): (n: nat)
    ensures n <= |line| && AllBlank(line[..n]) && (n < |line| ==> !IsBlank(line[n]))
  {
    if line == "" || !IsBlank(line[0]) then 0
    else
      var rest := LeadingCount(line[1..]);
      assert forall k :: 0 < k < 1 + rest ==> line[k] == line[1..][..rest][k - 1];
      1 + rest
  }

  function Leading(line: string): string {
    line[..LeadingCount(line)]
  }

  function Body(line: string): string {
    line[LeadingCount(line)..]
  }

  lemma {:induction false} LeadingOfJoined(blanks: string, body: string)
    requires AllBlank(blanks) && (body != "" ==> !IsBlank(body[0]))
    ensures Leading(blanks + body) == blanks && Body(blanks + body) == body
  {
    if blanks == "" {
      assert blanks + body == body;
    } else {
      LeadingOfJoined(blanks[1..], body);
      var s := blanks + body;
      assert s[1..] == blanks[1..] + body;
      assert LeadingCount(s) == |blanks|;
    }
  }

  // ----- planning -----------------------------------------------------------------------

  /** Lexer state and nesting depth before a line. */
  datatype Context = Context(state: Option<Multiline>, depth: nat)

  function Deepened(depth: nat, delimiters: seq<Delimiter>): nat {
    if delimiters == [] then depth
    else
      var before := Deepened(depth, delimiters[..|delimiters| - 1]);
      match delimiters[|delimiters| - 1]
      case Open(_) => before + 1
      case Close(_) => if before > 0 then before - 1 else 0
  }

  /** The context after a line, from the one before it. */
  function ContextAfter(line: string, c: Context, p: Profile): (r: Context)
    requires SaneProfile(p) && SaneState(c.state)
    ensures SaneState(r.state)
  {
    var (scan, state) := Scan(line, c.state, p);
    Context(state, Deepened(c.depth, scan.delimiters))
  }

  function ContextBefore(lines: seq<string>, k: nat, p: Profile): (c: Context)
    requires k <= |lines| && SaneProfile(p)
    ensures SaneState(c.state)
  {
    if k == 0 then Context(None, 0)
    else
      ContextAfter(lines[k - 1], ContextBefore(lines, k - 1, p), p)
  }

  /** The blanks a line should begin with. */
  function Desired(line: string, c: Context, p: Profile, o: Options): string
    requires SaneProfile(p) && SaneState(c.state)
  {
    Prefix(line, Scan(line, c.state, p).0, c.state.Some? && c.state.value.Literal?, c.depth, o)
  }

  /** ... from what was scanned on it. */
  function Prefix(line: string, scan: LineScan, continuation: bool, depth: nat, o: Options): string {
    var target := if depth >= scan.leadingClosers then depth - scan.leadingClosers else 0;
    if !scan.hasCode || continuation then Leading(line) else EncodeIndent(o, target * Normalized(o).shiftWidth)
  }

  datatype PlannedIndent = PlannedIndent(line: nat, leadingChars: nat, replacement: Option<string>, cursorCol: nat)

  function Planned(lines: seq<string>, k: nat, p: Profile, o: Options): PlannedIndent
    requires k < |lines| && SaneProfile(p)
  {
    PlannedLine(lines[k], k, ContextBefore(lines, k, p), p, o)
  }

  function PlannedLine(line: string, k: nat, c: Context, p: Profile, o: Options): PlannedIndent
    requires SaneProfile(p) && SaneState(c.state)
  {
    var desired := Desired(line, c, p, o);
    PlannedIndent(k, |Leading(line)|, if desired != Leading(line) then Some(desired) else None, |desired|)
  }

  method Deepen(before: nat, delimiters: seq<Delimiter>) returns (depth: nat)
    ensures depth == Deepened(before, delimiters)
  {
    depth := before;
    for i := 0 to |delimiters|
      invariant depth == Deepened(before, delimiters[..i])
    {
      assert delimiters[..i + 1][..i] == delimiters[..i];
      match delimiters[i] {
        case Open(_) => depth := depth + 1;
        case Close(_) => depth := if depth > 0 then depth - 1 else 0;
      }
    }
    assert delimiters[..|delimiters|] == delimiters;
  }

  method PlanLine(line: string, k: nat, state: Option<Multiline>, depth: nat, p: Profile, o: Options)
      returns (planned: PlannedIndent, next: Option<Multiline>, deeper: nat)
    requires SaneProfile(p) && SaneState(state)
    ensures planned == PlannedLine(line, k, Context(state, depth), p, o)
    ensures Context(next, deeper) == ContextAfter(line, Context(state, depth), p)
  {
    var scan, continuation;
    scan, continuation, next := ScanLine(line, p, state);
    var prefix := Leading(line);
    var desired := Prefix(line, scan, continuation, depth, o);
    planned := PlannedIndent(k, |prefix|, if desired != prefix then Some(desired) else None, |desired|);
    deeper := Deepen(depth, scan.delimiters);
  }

  /** The plan for lines `start` to `end`, scanning from the top of the document. */
  method Plan(lines: seq<string>, start: nat, end: nat, p: Profile, o: Options) returns (plan: seq<PlannedIndent>)
    requires SaneProfile(p)
    ensures var last := Min(end, |lines|);
            |plan| == (if start < last then last - start else 0) &&
            forall k :: start <= k < last ==> plan[k - start] == Planned(lines, k, p, o)
  {
    var last := Min(end, |lines|);
    plan := [];
    if start >= last {
      return;
    }
    var state: Option<Multiline> := None;
    var depth: nat := 0;
    for k := 0 to last
      invariant Context(state, depth) == ContextBefore(lines, k, p)
      invariant |plan| == if start <= k then k - start else 0
      invariant forall j :: start <= j < k ==> plan[j - start] == Planned(lines, j, p, o)
    {
      var planned, next, deeper := PlanLine(lines[k], k, state, depth, p, o);
      if k >= start {
        plan := plan + [planned];
      }
      depth := deeper;
      state := next;
    }
  }

  // ----- reindenting twice -----------------------------------------------------------------

  /** The lines after the plan for `start..end` has been applied. */
  function Applied(lines: seq<string>, start: nat, end: nat, p: Profile, o: Options): (r: seq<string>)
    requires SaneProfile(p)
    ensures |r| == |lines|
    ensures forall k :: 0 <= k < |lines| ==>
              r[k] == if start <= k < end then Replaced(lines[k], Planned(lines, k, p, o)) else lines[k]
  {
    seq(|lines|, k requires 0 <= k < |lines| =>
      if start <= k < end then Replaced(lines[k], Planned(lines, k, p, o)) else lines[k])
  }

  function Replaced(line: string, plan: PlannedIndent): string {
    if plan.replacement.None? || plan.leadingChars > |line| then line
    else plan.replacement.value + line[plan.leadingChars..]
  }

  /** The replaced line, in its context: same delimiters, same state after it,
      and the blanks it should have. */
  lemma ReplacedLineIsSettled(line: string, c: Context, p: Profile, o: Options)
    requires SaneProfile(p) && SaneState(c.state)
    ensures var line' := Desired(line, c, p, o) + Body(line);
            Scan(line', c.state, p).0.delimiters == Scan(line, c.state, p).0.delimiters &&
            Scan(line', c.state, p).1 == Scan(line, c.state, p).1 &&
            Desired(line', c, p, o) == Leading(line') == Desired(line, c, p, o) && Body(line') == Body(line)
  {
    var desired, body := Desired(line, c, p, o), Body(line);
    assert line == Leading(line) + body;
    if desired != Leading(line) {
      var target := Scan(line, c.state, p).0;
      var level := if c.depth >= target.leadingClosers then c.depth - target.leadingClosers else 0;
      EncodeReachesWidth(o, level * Normalized(o).shiftWidth);
      LeadingOfJoined(desired, body);
      if body != "" {
        LeadingBlanksDoNotMatter(Leading(line), desired, body, c.state, p);
      } else {
        BlankLine(Leading(line), c.state, p);
        BlankLine(desired, c.state, p);
        assert desired + "" == desired && Leading(line) + "" == Leading(line);
      }
    }
  }

  lemma ReplacedIsDesired(lines: seq<string>, k: nat, p: Profile, o: Options)
    requires k < |lines| && SaneProfile(p)
    ensures Replaced(lines[k], Planned(lines, k, p, o))
            == Desired(lines[k], ContextBefore(lines, k, p), p, o) + Body(lines[k])
  {
    assert lines[k] == Leading(lines[k]) + Body(lines[k]);
  }

  lemma SettledContext(line: string, c: Context, p: Profile, o: Options)
    requires SaneProfile(p) && SaneState(c.state)
    ensures ContextAfter(Desired(line, c, p, o) + Body(line), c, p) == ContextAfter(line, c, p)
  {
    ReplacedLineIsSettled(line, c, p, o);
  }

  lemma AppliedLineContext(lines: seq<string>, start: nat, end: nat, k: nat, p: Profile, o: Options)
    requires k < |lines| && SaneProfile(p)
    ensures var c := ContextBefore(lines, k, p);
            ContextAfter(Applied(lines, start, end, p, o)[k], c, p) == ContextAfter(lines[k], c, p)
  {
    SettledContext(lines[k], ContextBefore(lines, k, p), p, o);
    ReplacedIsDesired(lines, k, p, o);
  }

  lemma NextContext(lines: seq<string>, k: nat, p: Profile)
    requires k < |lines| && SaneProfile(p)
    ensures ContextBefore(lines, k + 1, p) == ContextAfter(lines[k], ContextBefore(lines, k, p), p)
  {
  }

  /** Line `j` of both texts leads from the context it has in `b` to the same next. */
  predicate SameTurn(a: seq<string>, b: seq<string>, j: nat, p: Profile)
    requires j < |a| == |b| && SaneProfile(p)
  {
    ContextAfter(a[j], ContextBefore(b, j, p), p) == ContextAfter(b[j], ContextBefore(b, j, p), p)
  }

  lemma SameTurnSameContext(a: seq<string>, b: seq<string>, j: nat, p: Profile)
    requires j < |a| == |b| && SaneProfile(p) && SameTurn(a, b, j, p)
    requires ContextBefore(a, j, p) == ContextBefore(b, j, p)
    ensures ContextBefore(a, j + 1, p) == ContextBefore(b, j + 1, p)
  {
    NextContext(a, j, p);
    NextContext(b, j, p);
  }

  /** Texts whose lines lead to the same contexts, one by one, have the same. */
  lemma {:induction false} ContextsAgree(a: seq<string>, b: seq<string>, k: nat, p: Profile)
    requires k <= |a| == |b| && SaneProfile(p)
    requires forall j: nat :: j < k ==> SameTurn(a, b, j, p)
    ensures ContextBefore(a, k, p) == ContextBefore(b, k, p)
  {
    if k == 0 {
      return;
    }
    ContextsAgree(a, b, k - 1, p);
    SameTurnSameContext(a, b, k - 1, p);
  }

  /** Reindenting leaves the lexer state and depth before every line as they were. */
  lemma ContextsKept(lines: seq<string>, start: nat, end: nat, k: nat, p: Profile, o: Options)
    requires k <= |lines| && SaneProfile(p)
    ensures ContextBefore(Applied(lines, start, end, p, o), k, p) == ContextBefore(lines, k, p)
  {
    var applied := Applied(lines, start, end, p, o);
    forall j: nat | j < k ensures SameTurn(applied, lines, j, p) {
      AppliedLineContext(lines, start, end, j, p, o);
    }
    ContextsAgree(applied, lines, k, p);
  }

  /** Reindenting is idempotent: after a plan has been applied to any range of
      any text, in any language, planning the range again changes nothing. */
  lemma ReindentIsIdempotent(lines: seq<string>, start: nat, end: nat, k: nat, language: Option<Language>, o: Options)
    requires start <= k < end && k < |lines|
    ensures SaneProfile(ForLanguage(language))
    ensures Planned(Applied(lines, start, end, ForLanguage(language), o), k, ForLanguage(language), o).replacement
            == None
  {
    var p := ForLanguage(language);
    EveryLanguageIsSane(language);
    ContextsKept(lines, start, end, k, p, o);
    ReplacedLineIsSettled(lines[k], ContextBefore(lines, k, p), p, o);
    ReplacedIsDesired(lines, k, p, o);
  }

  /** Only leading blanks change: what follows them is kept on every line, and so
      are the delimiters that make up its structure. */
  lemma ReindentKeepsContent(lines: seq<string>, start: nat, end: nat, k: nat, p: Profile, o: Options)
    requires k < |lines| && SaneProfile(p)
    ensures Body(Applied(lines, start, end, p, o)[k]) == Body(lines[k])
    ensures var c, c' := ContextBefore(lines, k, p), ContextBefore(Applied(lines, start, end, p, o), k, p);
            Scan(Applied(lines, start, end, p, o)[k], c'.state, p).0.delimiters
              == Scan(lines[k], c.state, p).0.delimiters
  {
    ContextsKept(lines, start, end, k, p, o);
    ReplacedLineIsSettled(lines[k], ContextBefore(lines, k, p), p, o);
    ReplacedIsDesired(lines, k, p, o);
  }
}
