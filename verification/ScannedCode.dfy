/** What the line scanner reports, piece by piece: exactly the delimiters that stand in
    code, none of those in comments and literals (ovim-core/src/auto_indent.rs). */
module ScannedCode {
  import opened Basics
  import opened Scanner
  import opened AutoIndent

  // ----- marks ---------------------------------------------------------------------

  /** Which languages have which line comments, of which there are five. */
  lemma LineMarksOf(language: Option<Language>)
    ensures var marks := ForLanguage(language).lineComments;
            ("//" in marks <==>
               language in {None, Some(Rust), Some(JavaScript), Some(TypeScript), Some(Tsx), Some(Terraform), Some(Hcl),
                            Some(Other)}) &&
            ("#" in marks <==>
               language in {Some(Python), Some(Ruby), Some(Bash), Some(Dockerfile), Some(Yaml), Some(Toml),
                            Some(Properties), Some(Ini), Some(Terraform), Some(Hcl)})
  {
  }

  lemma RarerLineMarksOf(language: Option<Language>)
    ensures var marks := ForLanguage(language).lineComments;
            ("--" in marks <==> language in {Some(Lua), Some(Sql)}) &&
            (";" in marks <==> language in {Some(Ini), Some(TreeSitterQuery)}) &&
            ("!" in marks <==> language == Some(Properties)) &&
            forall m :: m in marks ==> m in ["//", "#", "--", ";", "!"]
  {
  }

  /** The one kind of block comment a language has, if any, and its literals. */
  lemma BlocksOf(language: Option<Language>)
    ensures var p := ForLanguage(language);
            p.blockComments ==
            (if language in {Some(Html), Some(Markdown)} then [("<!--", "-->")]
             else if language == Some(Lua) then [("--[[", "]]")]
             else if language == Some(Sql) || "//" in p.lineComments then [("/*", "*/")]
             else [])
    ensures var p := ForLanguage(language);
            (p.backticks <==> language in {Some(JavaScript), Some(TypeScript), Some(Tsx)}) &&
            (p.pythonTriples <==> language == Some(Python)) && (p.luaLong <==> language == Some(Lua)) &&
            (p.rustRaw <==> language == Some(Rust)) && (p.rustLifetimes <==> language == Some(Rust))
  {
  }

  // ----- the end of a quoted literal ---------------------------------------------

  /** Text inside a literal: a backslash takes the next character with it, and no quote
      stands alone. */
  predicate Unbroken(text: string, quote: char, escaped: bool) {
    if text == "" then !escaped
    else if escaped then Unbroken(text[1..], quote, false)
    else text[0] != quote && Unbroken(text[1..], quote, text[0] == '\\')
  }

  /** A quoted literal ends at the first quote that no backslash escapes. */
  predicate ClosesAt(rest: string, quote: char, escaped: bool, j: nat) {
    j < |rest| && rest[j] == quote && Unbroken(rest[..j], quote, escaped)
  }

  lemma {:induction false} QuotedEndExactly(rest: string, quote: char, escaped: bool, j: nat)
    requires quote != '\\'
    ensures QuotedEnd(rest, quote, escaped) == Some(j + 1) <==> ClosesAt(rest, quote, escaped, j)
  {
    if rest != "" {
      if j > 0 && j < |rest| {
        QuotedEndExactly(rest[1..], quote, !escaped && rest[0] == '\\', j - 1);
        assert rest[..j][1..] == rest[1..][..j - 1];
      }
    }
  }

  // ----- the end of a literal with a mark of its own ---------------------------------

  /** `needle` is at `k` and nowhere before. */
  predicate FirstAt(s: string, needle: string, k: nat) {
    StartsWith(s, k, needle) && forall j :: 0 <= j < k ==> !StartsWith(s, j, needle)
  }

  lemma StartsWithTail(s: string, needle: string, j: nat)
    requires 1 <= j <= |s|
    ensures StartsWith(s, j, needle) <==> StartsWith(s[1..], j - 1, needle)
  {
    StartsWithIsPrefix(s, j, needle);
    StartsWithIsPrefix(s[1..], j - 1, needle);
    assert s[1..][j - 1..] == s[j..];
  }

  lemma {:induction false} FindIsFirst(s: string, needle: string)
    requires needle != ""
    ensures Find(s, needle).Some? ==> FirstAt(s, needle, Find(s, needle).value)
    ensures Find(s, needle).None? ==> forall j: nat :: !StartsWith(s, j, needle)
    decreases |s|
  {
    if |s| >= |needle| {
      StartsWithIsPrefix(s, 0, needle);
      assert s[0..] == s;
      if !(needle <= s) {
        FindIsFirst(s[1..], needle);
        forall j: nat | 1 <= j <= |s| ensures StartsWith(s, j, needle) <==> StartsWith(s[1..], j - 1, needle) {
          StartsWithTail(s, needle, j);
        }
      }
    }
  }

  lemma FirstIsFound(s: string, needle: string, k: nat)
    requires needle != "" && FirstAt(s, needle, k)
    ensures Find(s, needle) == Some(k)
  {
    FindIsFirst(s, needle);
  }

  lemma {:induction false} HashesCount(n: nat, rest: string)
    requires rest == "" || rest[0] != '#'
    ensures Hashes(Repeat('#', n) + rest) == n
  {
    if n == 0 {
      assert Repeat('#', 0) + rest == rest;
    } else {
      HashesCount(n - 1, rest);
      RepeatFront(n);
      assert (Repeat('#', n) + rest)[1..] == Repeat('#', n - 1) + rest;
    }
  }

  lemma RepeatFront(n: nat)
    requires n > 0
    ensures Repeat('#', n)[1..] == Repeat('#', n - 1)
  {
  }

  lemma RawBehindR(s: string, n: nat)
    requires 1 + n < |s| && s[0] == 'r' && Hashes(s[1..]) == n && s[1 + n] == '"'
    ensures RustRaw(s) == Some((n + 2, "\"" + Repeat('#', n)))
  {
  }

  lemma RawMarkOpening(n: nat, rest: string)
    ensures RustRaw(RawMark(n) + rest) == Some((n + 2, "\"" + Repeat('#', n)))
  {
    var s, behind := RawMark(n) + rest, "\"" + rest;
    HashesCount(n, behind);
    assert RawMark(n) == ("r" + Repeat('#', n)) + "\"";
    Associate("r" + Repeat('#', n), "\"", rest);
    Associate("r", Repeat('#', n), behind);
    assert s == "r" + (Repeat('#', n) + behind);
    assert s[1..] == Repeat('#', n) + behind;
    assert s[1 + n] == (Repeat('#', n) + behind)[n];
    RawBehindR(s, n);
  }

  function RawMark(n: nat): (r: string)
    ensures |r| == n + 2 && r[0] == 'r'
  {
    "r" + Repeat('#', n) + "\""
  }

  /** A raw string opens with `r`, maybe behind a `b` or `c`, any number of hashes and a
      quote, and ends with a quote and as many hashes. */
  lemma RustRawOpening(n: nat, rest: string, c: char)
    requires c == 'b' || c == 'c'
    ensures RustRaw(RawMark(n) + rest) == Some((n + 2, "\"" + Repeat('#', n)))
    ensures RustRaw([c] + (RawMark(n) + rest)) == Some((n + 3, "\"" + Repeat('#', n)))
  {
    RawMarkOpening(n, rest);
    RawBehind(c, RawMark(n) + rest);
  }

  lemma RawBehind(c: char, s: string)
    requires (c == 'b' || c == 'c') && s != "" && s[0] == 'r'
    ensures RustRaw([c] + s) == if RustRaw(s).None? then None else Some((RustRaw(s).value.0 + 1, RustRaw(s).value.1))
  {
    var t, n := [c] + s, Hashes(s[1..]);
    assert t[2..] == s[1..] && t[0] == c && t[1] == s[0];
    assert n + 1 < |s| ==> t[n + 2] == s[n + 1];
  }

  // ----- nested comments -----------------------------------------------------------

  datatype Piece = Text(text: string) | Enter | Leave

  function Flat(pieces: seq<Piece>, start: string, end: string): string {
    if pieces == [] then ""
    else
      var rest := Flat(pieces[1..], start, end);
      match pieces[0]
      case Text(s) => s + rest
      case Enter => start + rest
      case Leave => end + rest
  }

  /** No comment mark begins inside the first `n` characters of `s`. */
  predicate NoMark(s: string, n: nat, start: string, end: string) {
    n <= |s| && forall i :: 0 <= i < n ==> !(start <= s[i..]) && !(end <= s[i..])
  }

  /** Marks are where the pieces say, also when `rest` follows. */
  predicate Clean(pieces: seq<Piece>, rest: string, start: string, end: string) {
    pieces == [] ||
    (Clean(pieces[1..], rest, start, end) &&
     (pieces[0].Text? ==>
      NoMark(pieces[0].text + (Flat(pieces[1..], start, end) + rest), |pieces[0].text|, start, end)))
  }

  /** The depth after the pieces, none of which comes after the comment has ended. */
  function DepthAfter(pieces: seq<Piece>, depth: nat): Option<nat> {
    if pieces == [] then Some(depth)
    else if depth == 0 then None
    else
      match pieces[0]
      case Text(_) => DepthAfter(pieces[1..], depth)
      case Enter => DepthAfter(pieces[1..], depth + 1)
      case Leave => DepthAfter(pieces[1..], depth - 1)
  }

  function Beyond(n: nat, rest: string, start: string, end: string, depth: nat): (nat, nat)
    requires start != "" && end != ""
  {
    if depth == 0 then (n, 0) else Further(n, CommentEnd(rest, start, end, depth))
  }

  lemma {:induction false} TextPasses(text: string, rest: string, start: string, end: string, depth: nat)
    requires start != "" && end != "" && depth >= 1
    requires NoMark(text + rest, |text|, start, end)
    ensures CommentEnd(text + rest, start, end, depth) == Further(|text|, CommentEnd(rest, start, end, depth))
  {
    if text == "" {
      assert text + rest == rest;
    } else {
      var all := text + rest;
      assert all[0..] == all && all[1..] == text[1..] + rest;
      assert !(start <= all[0..]) && !(end <= all[0..]);
      forall i | 0 <= i < |text| - 1 ensures !(start <= all[1..][i..]) && !(end <= all[1..][i..]) {
        assert all[1..][i..] == all[i + 1..];
      }
      TextPasses(text[1..], rest, start, end, depth);
    }
  }

  lemma MarkPasses(enter: bool, rest: string, start: string, end: string, depth: nat)
    requires start != "" && end != "" && start[0] != end[0] && depth >= 1
    ensures enter ==> CommentEnd(start + rest, start, end, depth)
                      == Further(|start|, CommentEnd(rest, start, end, depth + 1))
    ensures !enter ==> CommentEnd(end + rest, start, end, depth) == Beyond(|end|, rest, start, end, depth - 1)
  {
    if enter {
      assert (start + rest)[0] == start[0] && !(end <= start + rest);
      assert (start + rest)[|start|..] == rest;
    } else {
      assert (end + rest)[|end|..] == rest;
    }
  }

  /** What the pieces have consumed, and the rest if the comment has not ended. */
  predicate Passes(pieces: seq<Piece>, rest: string, start: string, end: string, depth: nat) {
    start != "" && end != "" && depth >= 1 && DepthAfter(pieces, depth).Some? &&
    CommentEnd(Flat(pieces, start, end) + rest, start, end, depth)
    == Beyond(|Flat(pieces, start, end)|, rest, start, end, DepthAfter(pieces, depth).value)
  }

  lemma FirstPasses(first: string, tail: string, rest: string, start: string, end: string, depth: nat, next: nat,
                    left: nat)
    requires start != "" && end != "" && depth >= 1 && next >= 1
    requires CommentEnd(first + (tail + rest), start, end, depth)
             == Further(|first|, CommentEnd(tail + rest, start, end, next))
    requires CommentEnd(tail + rest, start, end, next) == Beyond(|tail|, rest, start, end, left)
    ensures CommentEnd((first + tail) + rest, start, end, depth) == Beyond(|first + tail|, rest, start, end, left)
  {
    Associate(first, tail, rest);
  }

  /** A comment ends with the mark that closes as many comments as were opened, and what
      follows is not looked at. */
  lemma {:induction false} CommentEndExactly(pieces: seq<Piece>, rest: string, start: string, end: string, depth: nat)
    requires start != "" && end != "" && start[0] != end[0] && depth >= 1
    requires DepthAfter(pieces, depth).Some? && Clean(pieces, rest, start, end)
    ensures Passes(pieces, rest, start, end, depth)
    decreases |pieces|, 1
  {
    if pieces == [] {
      assert "" + rest == rest;
    } else if pieces[0].Text? {
      TextPasses(pieces[0].text, Flat(pieces[1..], start, end) + rest, start, end, depth);
      CommentEndExactly(pieces[1..], rest, start, end, depth);
      FirstPasses(pieces[0].text, Flat(pieces[1..], start, end), rest, start, end, depth, depth,
                  DepthAfter(pieces, depth).value);
    } else {
      MarkThenRest(pieces, rest, start, end, depth);
    }
  }

  lemma {:induction false} MarkThenRest(pieces: seq<Piece>, rest: string, start: string, end: string, depth: nat)
    requires start != "" && end != "" && start[0] != end[0] && depth >= 1
    requires pieces != [] && !pieces[0].Text? && DepthAfter(pieces, depth).Some? && Clean(pieces, rest, start, end)
    ensures Passes(pieces, rest, start, end, depth)
    decreases |pieces|, 0
  {
    var tail := Flat(pieces[1..], start, end);
    MarkPasses(pieces[0].Enter?, tail + rest, start, end, depth);
    if pieces[0].Leave? && depth == 1 {
      assert pieces[1..] == [];
      assert end + "" + rest == end + (tail + rest);
    } else {
      var next := if pieces[0].Enter? then depth + 1 else depth - 1;
      CommentEndExactly(pieces[1..], rest, start, end, next);
      FirstPasses(if pieces[0].Enter? then start else end, tail, rest, start, end, depth, next,
                  DepthAfter(pieces, depth).value);
    }
  }

  // ----- scanning on from a position ---------------------------------------------------

  /** The delimiters found from position `i` on, and the state at the end of the line. */
  function Found(line: string, i: nat, st: Option<Multiline>, p: Profile): seq<Delimiter>
    requires i <= |line| && SaneProfile(p) && SaneState(st)
  {
    ScanFrom(line, i, st, true, p, NOTHING).0.delimiters
  }

  function StateAtEnd(line: string, i: nat, st: Option<Multiline>, p: Profile): Option<Multiline>
    requires i <= |line| && SaneProfile(p) && SaneState(st)
  {
    ScanFrom(line, i, st, true, p, NOTHING).1
  }

  /** The same step, but for what was found before. */
  predicate Relative(t: Token, t0: Token, before: seq<Delimiter>) {
    t == t0.(leading := t.leading, scan := t.scan) && t.scan.delimiters == before + t0.scan.delimiters
  }

  lemma LiteralIsRelative(rest: string, opening: nat, end: string, scan: LineScan)
    requires opening <= |rest| && end != ""
    ensures Relative(LiteralToken(rest, opening, end, scan), LiteralToken(rest, opening, end, NOTHING), scan.delimiters)
  {
  }

  lemma QuoteIsRelative(rest: string, p: Profile, scan: LineScan)
    requires rest != ""
    ensures Relative(QuoteToken(rest, p, scan), QuoteToken(rest, p, NOTHING), scan.delimiters)
  {
  }

  lemma DelimiterIsRelative(c: char, leading: bool, scan: LineScan)
    ensures Relative(DelimiterToken(c, leading, scan), DelimiterToken(c, true, NOTHING), scan.delimiters)
  {
  }

  lemma CodeIsRelative(rest: string, wordBefore: bool, leading: bool, p: Profile, scan: LineScan)
    requires rest != "" && SaneProfile(p)
    ensures Relative(CodeToken(rest, wordBefore, leading, p, scan), CodeToken(rest, wordBefore, true, p, NOTHING),
                     scan.delimiters)
  {
    var literal := OpeningLiteral(rest, wordBefore, p);
    if IsSpace(rest[0]) || BlockStart(rest, p.blockComments).Some? || LineCommentAt(rest, p.lineComments) {
      assert scan.delimiters + [] == scan.delimiters;
    } else if literal.Some? {
      LiteralIsRelative(rest, literal.value.0, literal.value.1, scan);
    } else {
      QuoteIsRelative(rest, p, scan);
      DelimiterIsRelative(rest[0], leading, scan);
    }
  }

  /** What a token does does not depend on what was found before it. */
  lemma TokenIsRelative(rest: string, wordBefore: bool, st: Option<Multiline>, leading: bool, p: Profile,
                        scan: LineScan)
    requires rest != "" && SaneProfile(p) && SaneState(st)
    ensures Relative(NextToken(rest, wordBefore, st, leading, p, scan),
                     NextToken(rest, wordBefore, st, true, p, NOTHING),
                     scan.delimiters)
  {
    if st.None? {
      CodeIsRelative(rest, wordBefore, leading, p, scan);
    }
  }

  predicate RelativeScan(r: (LineScan, Option<Multiline>), r0: (LineScan, Option<Multiline>), before: seq<Delimiter>) {
    r.0.delimiters == before + r0.0.delimiters && r.1 == r0.1
  }

  lemma RelativeThen(a: (LineScan, Option<Multiline>), b: (LineScan, Option<Multiline>),
                     c: (LineScan, Option<Multiline>),
                     x: seq<Delimiter>, y: seq<Delimiter>)
    requires RelativeScan(a, c, x + y) && RelativeScan(b, c, y)
    ensures RelativeScan(a, b, x)
  {
    Associate(x, y, c.0.delimiters);
  }

  /** `t` is what the scan of `rest` takes first, and `r` what it comes to. */
  predicate Takes(rest: string, p: Profile, t: Token, r: (LineScan, Option<Multiline>)) {
    rest != "" && SaneProfile(p) && SaneState(t.state) && t.used <= |rest| && (!t.stop ==> t.used >= 1) &&
    r == Behind(rest, p, t)
  }

  lemma OneTurn(rest: string, wordBefore: bool, st: Option<Multiline>, leading: bool, p: Profile, scan: LineScan)
    returns (t: Token)
    requires rest != "" && SaneProfile(p) && SaneState(st)
    ensures t == NextToken(rest, wordBefore, st, leading, p, scan)
    ensures Takes(rest, p, t, ScanRest(rest, wordBefore, st, leading, p, scan))
  {
    t := NextToken(rest, wordBefore, st, leading, p, scan);
  }

  lemma TwoTurns(rest: string, wordBefore: bool, st: Option<Multiline>, leading: bool, p: Profile, scan: LineScan)
    returns (t: Token, t0: Token)
    requires rest != "" && SaneProfile(p) && SaneState(st)
    ensures Takes(rest, p, t, ScanRest(rest, wordBefore, st, leading, p, scan))
    ensures Takes(rest, p, t0, ScanRest(rest, wordBefore, st, true, p, NOTHING))
    ensures Relative(t, t0, scan.delimiters)
  {
    t := OneTurn(rest, wordBefore, st, leading, p, scan);
    t0 := OneTurn(rest, wordBefore, st, true, p, NOTHING);
    TokenIsRelative(rest, wordBefore, st, leading, p, scan);
  }

  lemma {:induction false} ScanIsRelative(rest: string, wordBefore: bool, st: Option<Multiline>, leading: bool,
                                          p: Profile,
                                          scan: LineScan)
    requires SaneProfile(p) && SaneState(st)
    ensures RelativeScan(ScanRest(rest, wordBefore, st, leading, p, scan),
                         ScanRest(rest, wordBefore, st, true, p, NOTHING),
                         scan.delimiters)
    decreases |rest|, 1
  {
    if rest != "" {
      var t, t0 := TwoTurns(rest, wordBefore, st, leading, p, scan);
      TurnIsRelative(rest, p, t, t0, scan.delimiters, ScanRest(rest, wordBefore, st, leading, p, scan),
                     ScanRest(rest, wordBefore, st, true, p, NOTHING));
    }
  }

  lemma {:induction false} TurnIsRelative(rest: string, p: Profile, t: Token, t0: Token, before: seq<Delimiter>,
                                          r: (LineScan, Option<Multiline>), r0: (LineScan, Option<Multiline>))
    requires Takes(rest, p, t, r) && Takes(rest, p, t0, r0) && Relative(t, t0, before)
    ensures RelativeScan(r, r0, before)
    decreases |rest|, 0
  {
    if !t.stop {
      TailIsRelative(rest[t.used..], IsWord(rest[t.used - 1]), p, t, t0, before);
    }
  }

  lemma {:induction false} TailIsRelative(rest: string, word: bool, p: Profile, t: Token, t0: Token,
                                          before: seq<Delimiter>)
    requires SaneProfile(p) && SaneState(t.state) && Relative(t, t0, before)
    ensures RelativeScan(ScanRest(rest, word, t.state, t.leading, p, t.scan),
                         ScanRest(rest, word, t.state, t0.leading, p, t0.scan), before)
    decreases |rest|, 2
  {
    ScanIsRelative(rest, word, t.state, t.leading, p, t.scan);
    ScanIsRelative(rest, word, t.state, t0.leading, p, t0.scan);
    RelativeThen(ScanRest(rest, word, t.state, t.leading, p, t.scan),
                 ScanRest(rest, word, t.state, t0.leading, p, t0.scan),
                 ScanRest(rest, word, t.state, true, p, NOTHING), before, t0.scan.delimiters);
  }

  lemma FromIsRelative(line: string, i: nat, st: Option<Multiline>, leading: bool, p: Profile, scan: LineScan)
    requires i <= |line| && SaneProfile(p) && SaneState(st)
    ensures var r := ScanFrom(line, i, st, leading, p, scan);
            r.0.delimiters == scan.delimiters + Found(line, i, st, p) && r.1 == StateAtEnd(line, i, st, p)
  {
    ScanIsRelative(line[i..], WordBefore(line, i), st, leading, p, scan);
  }

  /** The scan from `i` on finds `found` and then does what it does from `j` on. */
  predicate GoesOn(line: string, i: nat, st: Option<Multiline>, found: seq<Delimiter>, j: nat, st': Option<Multiline>,
                   p: Profile)
  {
    i <= |line| && j <= |line| && SaneProfile(p) && SaneState(st) && SaneState(st') &&
    Found(line, i, st, p) == found + Found(line, j, st', p) && StateAtEnd(line, i, st, p) == StateAtEnd(line, j, st', p)
  }

  /** ... or the scan of the line ends with it. */
  predicate EndsWith(line: string, i: nat, st: Option<Multiline>, found: seq<Delimiter>, st': Option<Multiline>,
                     p: Profile) {
    i <= |line| && SaneProfile(p) && SaneState(st) && Found(line, i, st, p) == found && StateAtEnd(line, i, st, p)
      == st'
  }

  lemma StepGoesOn(line: string, i: nat, st: Option<Multiline>, p: Profile, t: Token)
    requires i < |line| && SaneProfile(p) && SaneState(st)
    requires Turns(line, i, t, p, ScanFrom(line, i, st, true, p, NOTHING))
    ensures t.stop ==> EndsWith(line, i, st, t.scan.delimiters, t.state, p)
    ensures !t.stop ==> GoesOn(line, i, st, t.scan.delimiters, i + t.used, t.state, p)
  {
    if !t.stop {
      FromIsRelative(line, i + t.used, t.state, t.leading, p, t.scan);
    }
  }

  lemma OneToken(line: string, i: nat, st: Option<Multiline>, p: Profile, t: Token)
    requires i < |line| && SaneProfile(p) && SaneState(st)
    requires t == NextToken(line[i..], WordBefore(line, i), st, true, p, NOTHING)
    ensures t.stop ==> EndsWith(line, i, st, t.scan.delimiters, t.state, p)
    ensures !t.stop ==> GoesOn(line, i, st, t.scan.delimiters, i + t.used, t.state, p)
  {
    ScanTurn(line, i, st, true, p, NOTHING, t);
    StepGoesOn(line, i, st, p, t);
  }

  // ----- code -------------------------------------------------------------------------

  predicate LineMarkAt(line: string, i: nat, p: Profile) {
    exists k :: 0 <= k < |p.lineComments| && StartsWith(line, i, p.lineComments[k])
  }

  predicate BlockMarkAt(line: string, i: nat, p: Profile) {
    exists k :: 0 <= k < |p.blockComments| && StartsWith(line, i, p.blockComments[k].0)
  }

  /** A literal with a mark of its own opens at `i`, `n` characters long, and ends with
      `end`: a raw string of Rust, a triple quote of Python, a long bracket of Lua. */
  predicate LiteralOpens(line: string, i: nat, n: nat, end: string, p: Profile) {
    i < |line| &&
    ((p.rustRaw && !WordBefore(line, i) && RustRaw(line[i..]) == Some((n, end))) ||
     (p.pythonTriples && StartsWith(line, i, end) && n == 3 && (end == "\"\"\"" || end == "'''")) ||
     (p.luaLong && StartsWith(line, i, "[[") && n == 2 && end == "]]"))
  }

  predicate SomeLiteralOpens(line: string, i: nat, p: Profile) {
    i < |line| &&
    ((p.rustRaw && !WordBefore(line, i) && RustRaw(line[i..]).Some?) ||
     (p.pythonTriples && (StartsWith(line, i, "\"\"\"") || StartsWith(line, i, "'''"))) ||
     (p.luaLong && StartsWith(line, i, "[[")))
  }

  predicate IsQuote(c: char, p: Profile) {
    c == '\'' || c == '"' || (p.backticks && c == '`')
  }

  /** Nothing but code begins at `i`. */
  predicate PlainAt(line: string, i: nat, p: Profile) {
    i < |line| && !LineMarkAt(line, i, p) && !BlockMarkAt(line, i, p) && !SomeLiteralOpens(line, i, p) &&
    !IsQuote(line[i], p)
  }

  function Bracket(c: char): seq<Delimiter> {
    if c == '{' || c == '(' || c == '[' then [Open(c)]
    else if c == '}' || c == ')' || c == ']' then [Close(c)]
    else []
  }

  function Brackets(s: string): seq<Delimiter> {
    if s == "" then [] else Bracket(s[0]) + Brackets(s[1..])
  }

  lemma {:induction false} BlockStartExactly(rest: string, pairs: seq<(string, string)>)
    ensures BlockStart(rest, pairs).None? <==> forall k :: 0 <= k < |pairs| ==> !(pairs[k].0 <= rest)
  {
    if pairs != [] {
      BlockStartExactly(rest, pairs[1..]);
      assert forall k :: 1 <= k < |pairs| ==> pairs[k] == pairs[1..][k - 1];
    }
  }

  lemma MarksAreAt(line: string, i: nat, p: Profile)
    requires i < |line|
    ensures BlockStart(line[i..], p.blockComments).Some? <==> BlockMarkAt(line, i, p)
    ensures LineCommentAt(line[i..], p.lineComments) <==> LineMarkAt(line, i, p)
  {
    BlockStartExactly(line[i..], p.blockComments);
    forall k | 0 <= k < |p.blockComments|
      ensures StartsWith(line, i, p.blockComments[k].0) <==> p.blockComments[k].0 <= line[i..]
    {
      StartsWithIsPrefix(line, i, p.blockComments[k].0);
    }
    forall k | 0 <= k < |p.lineComments|
      ensures StartsWith(line, i, p.lineComments[k]) <==> p.lineComments[k] <= line[i..]
    {
      StartsWithIsPrefix(line, i, p.lineComments[k]);
    }
  }

  lemma OpeningsAreAt(line: string, i: nat)
    requires i < |line|
    ensures "\"\"\"" <= line[i..] <==> StartsWith(line, i, "\"\"\"")
    ensures "'''" <= line[i..] <==> StartsWith(line, i, "'''")
    ensures "[[" <= line[i..] <==> StartsWith(line, i, "[[")
  {
    StartsWithIsPrefix(line, i, "\"\"\"");
    StartsWithIsPrefix(line, i, "'''");
    StartsWithIsPrefix(line, i, "[[");
  }

  /** A character of code is reported if it is a delimiter. */
  lemma PlainCharacter(line: string, i: nat, p: Profile)
    requires SaneProfile(p) && PlainAt(line, i, p)
    ensures GoesOn(line, i, None, Bracket(line[i]), i + 1, None, p)
  {
    MarksAreAt(line, i, p);
    OpeningsAreAt(line, i);
    var t := CodeToken(line[i..], WordBefore(line, i), true, p, NOTHING);
    assert line[i..][0] == line[i];
    assert t.scan.delimiters == Bracket(line[i]) && t.used == 1 && !t.stop && t.state == None;
    OneToken(line, i, None, p, t);
  }

  lemma Chain(line: string, i: nat, a: seq<Delimiter>, j: nat, b: seq<Delimiter>, k: nat, p: Profile,
              st: Option<Multiline>, st': Option<Multiline>, st'': Option<Multiline>)
    requires GoesOn(line, i, st, a, j, st', p) && GoesOn(line, j, st', b, k, st'', p)
    ensures GoesOn(line, i, st, a + b, k, st'', p)
  {
    Associate(a, b, Found(line, k, st'', p));
  }

  lemma SkipTwice(line: string, i: nat, j: nat, k: nat, p: Profile, st: Option<Multiline>)
    requires GoesOn(line, i, None, [], j, st, p) && GoesOn(line, j, st, [], k, None, p)
    ensures GoesOn(line, i, None, [], k, None, p)
  {
  }

  lemma {:induction false} PlainRun(line: string, i: nat, j: nat, p: Profile)
    requires SaneProfile(p) && i <= j <= |line| && forall k :: i <= k < j ==> PlainAt(line, k, p)
    ensures GoesOn(line, i, None, Brackets(line[i..j]), j, None, p)
    decreases j - i
  {
    if i < j {
      PlainCharacter(line, i, p);
      PlainRun(line, i + 1, j, p);
      assert line[i..j][1..] == line[i + 1..j] && line[i..j][0] == line[i];
      Chain(line, i, Bracket(line[i]), i + 1, Brackets(line[i + 1..j]), j, p, None, None, None);
    }
  }

  // ----- comments and literals ---------------------------------------------------------

  /** A quote that opens an ordinary literal. */
  predicate QuoteAt(line: string, i: nat, p: Profile) {
    i < |line| && IsQuote(line[i], p) &&
    !LineMarkAt(line, i, p) && !BlockMarkAt(line, i, p) && !SomeLiteralOpens(line, i, p)
  }

  lemma QuoteTokenAt(line: string, i: nat, p: Profile)
    requires SaneProfile(p) && QuoteAt(line, i, p)
    ensures CodeToken(line[i..], WordBefore(line, i), true, p, NOTHING) == QuoteToken(line[i..], p, NOTHING)
    ensures line[i..][0] == line[i] && line[i..][1..] == line[i + 1..]
  {
    MarksAreAt(line, i, p);
    OpeningsAreAt(line, i);
  }

  lemma QuotedToken(line: string, i: nat, j: nat, p: Profile)
    requires SaneProfile(p) && QuoteAt(line, i, p) && ClosesAt(line[i + 1..], line[i], false, j)
    ensures j + 2 <= |line[i..]|
    ensures NextToken(line[i..], WordBefore(line, i), None, true, p, NOTHING)
            == Token(j + 2, false, false, Code(NOTHING), None)
  {
    QuotedEndExactly(line[i + 1..], line[i], false, j);
    QuoteTokenAt(line, i, p);
  }

  /** A quoted literal that ends on the line is skipped with all that is in it. */
  lemma QuotedIsSkipped(line: string, i: nat, j: nat, p: Profile)
    requires SaneProfile(p) && QuoteAt(line, i, p) && ClosesAt(line[i + 1..], line[i], false, j)
    ensures i + j + 2 <= |line| && GoesOn(line, i, None, [], i + j + 2, None, p)
  {
    QuotedToken(line, i, j, p);
    OneToken(line, i, None, p, Token(j + 2, false, false, Code(NOTHING), None));
  }

  predicate NeverCloses(rest: string, quote: char) {
    forall j: nat :: j < |rest| ==> !ClosesAt(rest, quote, false, j)
  }

  lemma NeverClosesExactly(rest: string, quote: char)
    requires quote != '\\'
    ensures NeverCloses(rest, quote) <==> QuotedEnd(rest, quote, false).None?
  {
    var r := QuotedEnd(rest, quote, false);
    forall j: nat | j < |rest| ensures ClosesAt(rest, quote, false, j) <==> r == Some(j + 1) {
      QuotedEndExactly(rest, quote, false, j);
    }
    if r.Some? {
      assert ClosesAt(rest, quote, false, r.value - 1);
    }
  }

  /** An apostrophe with no other to close it is a character of Rust like any other; any
      other open quote hides the rest of the line, and an open backtick the lines below. */
  lemma OpenQuote(line: string, i: nat, p: Profile)
    requires SaneProfile(p) && QuoteAt(line, i, p) && NeverCloses(line[i + 1..], line[i])
    ensures line[i] == '\'' && p.rustLifetimes ==> GoesOn(line, i, None, [], i + 1, None, p)
    ensures !(line[i] == '\'' && p.rustLifetimes) ==>
              EndsWith(line, i, None, [], if line[i] == '`' then Some(Literal("`")) else None, p)
  {
    NeverClosesExactly(line[i + 1..], line[i]);
    QuoteTokenAt(line, i, p);
    OneToken(line, i, None, p, QuoteToken(line[i..], p, NOTHING));
  }

  /** Nothing behind a line comment mark is looked at. */
  lemma LineCommentEnds(line: string, i: nat, p: Profile)
    requires SaneProfile(p) && i < |line| && LineMarkAt(line, i, p) && !BlockMarkAt(line, i, p) && !IsSpace(line[i])
    ensures EndsWith(line, i, None, [], None, p)
  {
    MarksAreAt(line, i, p);
    OneToken(line, i, None, p, CodeToken(line[i..], WordBefore(line, i), true, p, NOTHING));
  }

  predicate NowhereIn(s: string, needle: string) {
    forall k: nat :: k <= |s| ==> !StartsWith(s, k, needle)
  }

  lemma LiteralTextToken(rest: string, wordBefore: bool, end: string, k: nat, p: Profile)
    requires SaneProfile(p) && rest != "" && end != "" && FirstAt(rest, end, k)
    ensures NextToken(rest, wordBefore, Some(Literal(end)), true, p, NOTHING)
            == Token(k + |end|, false, false, Code(NOTHING), None)
  {
    FirstIsFound(rest, end, k);
  }

  /** The text of a literal with a mark of its own is skipped to the first such mark. */
  lemma LiteralTextCloses(line: string, i: nat, end: string, k: nat, p: Profile)
    requires SaneProfile(p) && i <= |line| && end != "" && FirstAt(line[i..], end, k)
    ensures i + k + |end| <= |line| && GoesOn(line, i, Some(Literal(end)), [], i + k + |end|, None, p)
  {
    LiteralTextToken(line[i..], WordBefore(line, i), end, k, p);
    OneToken(line, i, Some(Literal(end)), p, Token(k + |end|, false, false, Code(NOTHING), None));
  }

  /** Without one it hides the rest of the line and goes on below. */
  lemma LiteralTextGoesOn(line: string, i: nat, end: string, p: Profile)
    requires SaneProfile(p) && i <= |line| && end != "" && NowhereIn(line[i..], end)
    ensures EndsWith(line, i, Some(Literal(end)), [], Some(Literal(end)), p)
  {
    FindIsFirst(line[i..], end);
    if i < |line| {
      OneToken(line, i, Some(Literal(end)), p, EndOfLiteral(line[i..], end, NOTHING));
    }
  }

  lemma CommentTextToken(rest: string, wordBefore: bool, start: string, end: string, depth: nat, p: Profile, used: nat,
                         left: nat)
    requires SaneProfile(p) && rest != "" && IsMark(start) && IsMark(end) && depth >= 1
    requires CommentEnd(rest, start, end, depth) == (used, left)
    ensures NextToken(rest, wordBefore, Some(BlockComment(start, end, depth)), true, p, NOTHING)
            == Token(used, false, false, Code(NOTHING), Inside(start, end, left))
    ensures used <= |rest|
  {
  }

  /** The text of a comment is skipped to where it ends; if it does not, it goes on below. */
  lemma CommentText(line: string, i: nat, start: string, end: string, depth: nat, p: Profile, used: nat, left: nat)
    requires SaneProfile(p) && i < |line| && IsMark(start) && IsMark(end) && depth >= 1
    requires CommentEnd(line[i..], start, end, depth) == (used, left)
    ensures i + used <= |line|
    ensures GoesOn(line, i, Some(BlockComment(start, end, depth)), [], i + used, Inside(start, end, left), p)
  {
    CommentTextToken(line[i..], WordBefore(line, i), start, end, depth, p, used, left);
    OneToken(line, i, Some(BlockComment(start, end, depth)), p,
             Token(used, false, false, Code(NOTHING), Inside(start, end, left)));
  }

  /** The state inside so many comments. */
  function Inside(start: string, end: string, depth: nat): Option<Multiline> {
    if depth > 0 then Some(BlockComment(start, end, depth)) else None
  }

  lemma CommentOpensToken(line: string, i: nat, start: string, end: string, p: Profile)
    requires SaneProfile(p) && p.blockComments == [(start, end)] && StartsWith(line, i, start)
    requires i < |line| && !IsSpace(line[i])
    ensures |start| <= |line[i..]|
    ensures NextToken(line[i..], WordBefore(line, i), None, true, p, NOTHING)
            == Token(|start|, false, false, Code(NOTHING), Some(BlockComment(start, end, 1)))
  {
    StartsWithIsPrefix(line, i, start);
  }

  lemma CommentOpens(line: string, i: nat, start: string, end: string, p: Profile)
    requires SaneProfile(p) && p.blockComments == [(start, end)] && StartsWith(line, i, start)
    requires i < |line| && !IsSpace(line[i])
    ensures IsMark(start) && IsMark(end)
    ensures GoesOn(line, i, None, [], i + |start|, Some(BlockComment(start, end, 1)), p)
  {
    assert IsMark(p.blockComments[0].0) && IsMark(p.blockComments[0].1);
    CommentOpensToken(line, i, start, end, p);
    OneToken(line, i, None, p, Token(|start|, false, false, Code(NOTHING), Some(BlockComment(start, end, 1))));
  }

  lemma LiteralOpensToken(line: string, i: nat, n: nat, end: string, p: Profile)
    requires SaneProfile(p) && LiteralOpens(line, i, n, end, p) && OnlyOneKind(p)
    requires !LineMarkAt(line, i, p) && !BlockMarkAt(line, i, p)
    ensures 1 <= n <= |line| - i && end != "" && !IsSpace(line[i])
    ensures OpeningLiteral(line[i..], WordBefore(line, i), p) == Some((n, end))
  {
    OpeningsAreAt(line, i);
  }

  /** No language has more than one kind of literal with marks of its own. */
  predicate OnlyOneKind(p: Profile) {
    !(p.rustRaw && p.pythonTriples) && !(p.rustRaw && p.luaLong) && !(p.pythonTriples && p.luaLong)
  }

  lemma LiteralTokenAt(line: string, i: nat, n: nat, end: string, p: Profile)
    requires SaneProfile(p) && LiteralOpens(line, i, n, end, p) && OnlyOneKind(p)
    requires !LineMarkAt(line, i, p) && !BlockMarkAt(line, i, p)
    ensures 1 <= n <= |line| - i && end != ""
    ensures CodeToken(line[i..], WordBefore(line, i), true, p, NOTHING) == LiteralToken(line[i..], n, end, NOTHING)
    ensures line[i..][n..] == line[i + n..]
  {
    LiteralOpensToken(line, i, n, end, p);
    MarksAreAt(line, i, p);
  }

  lemma LiteralTokenCloses(rest: string, n: nat, end: string, k: nat)
    requires n <= |rest| && end != "" && FirstAt(rest[n..], end, k)
    ensures LiteralToken(rest, n, end, NOTHING) == Token(n + k + |end|, false, false, Code(NOTHING), None)
  {
    FirstIsFound(rest[n..], end, k);
  }

  lemma LiteralTokenGoesOn(rest: string, n: nat, end: string)
    requires n <= |rest| && end != "" && NowhereIn(rest[n..], end)
    ensures LiteralToken(rest, n, end, NOTHING) == Token(n, false, false, Code(NOTHING), Some(Literal(end)))
  {
    FindIsFirst(rest[n..], end);
  }

  /** `i` is where a literal with marks of its own opens, and not in front of a comment. */
  predicate LiteralAt(line: string, i: nat, n: nat, end: string, p: Profile) {
    LiteralOpens(line, i, n, end, p) && !LineMarkAt(line, i, p) && !BlockMarkAt(line, i, p) && i + n <= |line|
  }

  lemma LiteralGoesOn(line: string, i: nat, n: nat, end: string, p: Profile)
    requires SaneProfile(p) && OnlyOneKind(p) && LiteralAt(line, i, n, end, p) && NowhereIn(line[i + n..], end)
    ensures EndsWith(line, i, None, [], Some(Literal(end)), p)
  {
    LiteralTokenAt(line, i, n, end, p);
    LiteralTokenGoesOn(line[i..], n, end);
    OneToken(line, i, None, p, Token(n, false, false, Code(NOTHING), Some(Literal(end))));
    LiteralTextGoesOn(line, i + n, end, p);
  }

  // ----- a whole line ----------------------------------------------------------------

  /** A stretch of a line up to `to`: code, or something that is skipped. */
  datatype Part =
    | CodePart(to: nat)
    | Quoted(to: nat)
    | Apostrophe(to: nat)
    | Marked(n: nat, end: string, to: nat)
    | Comment(start: string, end: string, to: nat)

  predicate Fits(line: string, i: nat, part: Part, p: Profile) {
    i < part.to <= |line| &&
    match part
    case CodePart(to) => forall k :: i <= k < to ==> PlainAt(line, k, p)
    case Quoted(to) => QuotedTo(line, i, to, p)
    case Apostrophe(to) => to == i + 1 && ApostropheAt(line, i, p)
    case Marked(n, end, to) => MarkedTo(line, i, n, end, to, p)
    case Comment(start, end, to) => CommentTo(line, i, start, end, to, p)
  }

  /** A quoted literal from `i` to `to`, where an escape does not end it. */
  predicate QuotedTo(line: string, i: nat, to: nat, p: Profile) {
    QuoteAt(line, i, p) && to >= i + 2 && ClosesAt(line[i + 1..], line[i], false, to - i - 2)
  }

  predicate ApostropheAt(line: string, i: nat, p: Profile) {
    QuoteAt(line, i, p) && line[i] == '\'' && p.rustLifetimes && NeverCloses(line[i + 1..], line[i])
  }

  /** A literal with marks of its own, up to the first that ends it. */
  predicate MarkedTo(line: string, i: nat, n: nat, end: string, to: nat, p: Profile) {
    LiteralAt(line, i, n, end, p) && to >= i + n + |end| && FirstAt(line[i + n..], end, to - |end| - n - i)
  }

  /** A comment with all the comments in it. */
  predicate CommentTo(line: string, i: nat, start: string, end: string, to: nat, p: Profile) {
    p.blockComments == [(start, end)] && start != "" && end != "" && StartsWith(line, i, start) &&
    i < |line| && !IsSpace(line[i]) && i + |start| < to && i + |start| < |line| &&
    CommentEnd(line[i + |start|..], start, end, 1) == (to - i - |start|, 0)
  }

  function PartDelimiters(line: string, i: nat, part: Part): seq<Delimiter> {
    if part.CodePart? && i <= part.to <= |line| then Brackets(line[i..part.to]) else []
  }

  lemma CommentIsSkipped(line: string, i: nat, start: string, end: string, to: nat, p: Profile)
    requires SaneProfile(p) && CommentTo(line, i, start, end, to, p)
    ensures GoesOn(line, i, None, [], to, None, p)
  {
    CommentOpens(line, i, start, end, p);
    CommentText(line, i + |start|, start, end, 1, p, to - i - |start|, 0);
    SkipTwice(line, i, i + |start|, to, p, Some(BlockComment(start, end, 1)));
  }

  /** The part is skipped. */
  predicate Skipped(line: string, i: nat, part: Part, p: Profile) {
    GoesOn(line, i, None, [], part.to, None, p)
  }

  lemma QuotedPart(line: string, i: nat, part: Part, p: Profile)
    requires SaneProfile(p) && Fits(line, i, part, p) && part.Quoted?
    ensures Skipped(line, i, part, p)
  {
    QuotedIsSkipped(line, i, part.to - i - 2, p);
  }

  lemma ApostrophePart(line: string, i: nat, part: Part, p: Profile)
    requires SaneProfile(p) && Fits(line, i, part, p) && part.Apostrophe?
    ensures Skipped(line, i, part, p)
  {
    OpenQuote(line, i, p);
  }

  lemma MarkedToken(line: string, i: nat, n: nat, end: string, to: nat, p: Profile)
    requires SaneProfile(p) && OnlyOneKind(p) && MarkedTo(line, i, n, end, to, p)
    ensures to - i <= |line[i..]|
    ensures NextToken(line[i..], WordBefore(line, i), None, true, p, NOTHING)
            == Token(to - i, false, false, Code(NOTHING), None)
  {
    LiteralTokenAt(line, i, n, end, p);
    LiteralTokenCloses(line[i..], n, end, to - |end| - n - i);
  }

  /** A literal with marks of its own is skipped with all that is in it. */
  lemma MarkedIsSkipped(line: string, i: nat, n: nat, end: string, to: nat, p: Profile)
    requires SaneProfile(p) && OnlyOneKind(p) && MarkedTo(line, i, n, end, to, p)
    ensures GoesOn(line, i, None, [], to, None, p)
  {
    MarkedToken(line, i, n, end, to, p);
    OneToken(line, i, None, p, Token(to - i, false, false, Code(NOTHING), None));
  }

  lemma MarkedPart(line: string, i: nat, part: Part, p: Profile)
    requires SaneProfile(p) && OnlyOneKind(p) && Fits(line, i, part, p) && part.Marked?
    ensures Skipped(line, i, part, p)
  {
    MarkedIsSkipped(line, i, part.n, part.end, part.to, p);
  }

  lemma CommentPart(line: string, i: nat, part: Part, p: Profile)
    requires SaneProfile(p) && Fits(line, i, part, p) && part.Comment?
    ensures Skipped(line, i, part, p)
  {
    CommentIsSkipped(line, i, part.start, part.end, part.to, p);
  }

  lemma OnePart(line: string, i: nat, part: Part, p: Profile)
    requires SaneProfile(p) && OnlyOneKind(p) && Fits(line, i, part, p)
    ensures GoesOn(line, i, None, PartDelimiters(line, i, part), part.to, None, p)
  {
    if part.CodePart? {
      PlainRun(line, i, part.to, p);
    } else if part.Quoted? {
      QuotedPart(line, i, part, p);
    } else if part.Apostrophe? {
      ApostrophePart(line, i, part, p);
    } else if part.Marked? {
      MarkedPart(line, i, part, p);
    } else {
      CommentPart(line, i, part, p);
    }
  }

  /** The parts lie side by side from `i` to `j`. */
  predicate Covers(line: string, i: nat, parts: seq<Part>, j: nat, p: Profile)
    decreases |parts|
  {
    if parts == [] then i == j <= |line| else Fits(line, i, parts[0], p) && Covers(line, parts[0].to, parts[1..], j, p)
  }

  /** The delimiters in the code among the parts. */
  function CodeDelimiters(line: string, i: nat, parts: seq<Part>): seq<Delimiter>
    decreases |parts|
  {
    if parts == [] then [] else PartDelimiters(line, i, parts[0]) + CodeDelimiters(line, parts[0].to, parts[1..])
  }

  lemma {:induction false} PartsAreScanned(line: string, i: nat, parts: seq<Part>, j: nat, p: Profile)
    requires SaneProfile(p) && OnlyOneKind(p) && Covers(line, i, parts, j, p)
    ensures GoesOn(line, i, None, CodeDelimiters(line, i, parts), j, None, p)
    decreases |parts|
  {
    if parts != [] {
      OnePart(line, i, parts[0], p);
      PartsAreScanned(line, parts[0].to, parts[1..], j, p);
      Chain(line, i, PartDelimiters(line, i, parts[0]), parts[0].to, CodeDelimiters(line, parts[0].to, parts[1..]), j,
            p,
            None, None, None);
    }
  }

  /** Where the code of a line begins: behind what was still open above it. */
  predicate Begins(line: string, st: Option<Multiline>, i: nat) {
    SaneState(st) && i <= |line| &&
    match st
    case None => i == 0
    case Some(Literal(end)) => i >= |end| && FirstAt(line, end, i - |end|)
    case Some(BlockComment(start, end, depth)) => line != "" && CommentEnd(line, start, end, depth) == (i, 0)
  }

  /** How the code of a line stops, and what is still open below it. */
  predicate Stops(line: string, j: nat, st: Option<Multiline>, p: Profile) {
    j <= |line| &&
    ((j == |line| && st == None) ||
     (j < |line| && LineMarkAt(line, j, p) && !BlockMarkAt(line, j, p) && !IsSpace(line[j]) && st == None) ||
     StopsOpen(line, j, st, p))
  }

  predicate StopsOpen(line: string, j: nat, st: Option<Multiline>, p: Profile) {
    j < |line| &&
    ((QuoteAt(line, j, p) && NeverCloses(line[j + 1..], line[j]) && !(line[j] == '\'' && p.rustLifetimes) &&
      st == if line[j] == '`' then Some(Literal("`")) else None) ||
     (st.Some? && st.value.Literal? && OpensLiteralBelow(line, j, st.value.end, p)) ||
     (st.Some? && st.value.BlockComment? && OpensCommentBelow(line, j, st.value, p)))
  }

  predicate OpensLiteralBelow(line: string, j: nat, end: string, p: Profile) {
    exists n: nat :: n <= |line| && LiteralAt(line, j, n, end, p) && NowhereIn(line[j + n..], end)
  }

  predicate OpensCommentBelow(line: string, j: nat, c: Multiline, p: Profile) {
    c.BlockComment? && c.start != "" && c.end != "" && c.depth >= 1 && p.blockComments == [(c.start, c.end)] &&
    j < |line| && !IsSpace(line[j]) && StartsWith(line, j, c.start) &&
    CommentEnd(line[j + |c.start|..], c.start, c.end, 1) == (|line| - j - |c.start|, c.depth)
  }

  lemma BeginningIsScanned(line: string, st: Option<Multiline>, i: nat, p: Profile)
    requires SaneProfile(p) && Begins(line, st, i)
    ensures GoesOn(line, 0, st, [], i, None, p)
  {
    assert line[0..] == line;
    match st {
      case None =>
      case Some(Literal(end)) => LiteralTextCloses(line, 0, end, i - |end|, p);
      case Some(BlockComment(start, end, depth)) => CommentText(line, 0, start, end, depth, p, i, 0);
    }
  }

  lemma OpenCommentEnds(line: string, j: nat, c: Multiline, p: Profile)
    requires SaneProfile(p) && OpensCommentBelow(line, j, c, p)
    ensures EndsWith(line, j, None, [], Some(c), p)
  {
    CommentOpens(line, j, c.start, c.end, p);
    if j + |c.start| < |line| {
      CommentText(line, j + |c.start|, c.start, c.end, 1, p, |line| - j - |c.start|, c.depth);
    }
  }

  lemma EndIsScanned(line: string, j: nat, st: Option<Multiline>, p: Profile)
    requires SaneProfile(p) && OnlyOneKind(p) && Stops(line, j, st, p)
    ensures EndsWith(line, j, None, [], st, p)
  {
    if j < |line| {
      if StopsOpen(line, j, st, p) {
        if st.Some? && st.value.BlockComment? {
          OpenCommentEnds(line, j, st.value, p);
        } else if QuoteAt(line, j, p) {
          OpenQuote(line, j, p);
        } else {
          var n: nat :| n <= |line| && LiteralAt(line, j, n, st.value.end, p) &&
                        NowhereIn(line[j + n..], st.value.end);
          LiteralGoesOn(line, j, n, st.value.end, p);
        }
      } else {
        LineCommentEnds(line, j, p);
      }
    }
  }

  /** The scan of a line reports exactly the delimiters of its code, in order, and leaves
      open exactly what is still open at its end: however a line divides into code,
      comments and literals behind what was open above it. */
  lemma ScanReportsCode(line: string, st: Option<Multiline>, i: nat, parts: seq<Part>, j: nat, st': Option<Multiline>,
                        language: Option<Language>)
    requires Begins(line, st, i) && Covers(line, i, parts, j, ForLanguage(language))
    requires Stops(line, j, st', ForLanguage(language))
    ensures SaneProfile(ForLanguage(language)) && SaneState(st)
    ensures Scan(line, st, ForLanguage(language)).0.delimiters == CodeDelimiters(line, i, parts)
    ensures Scan(line, st, ForLanguage(language)).1 == st'
  {
    var p := ForLanguage(language);
    EveryLanguageIsSane(language);
    assert OnlyOneKind(p);
    BeginningIsScanned(line, st, i, p);
    PartsAreScanned(line, i, parts, j, p);
    EndIsScanned(line, j, st', p);
    assert line[0..] == line;
  }
}
