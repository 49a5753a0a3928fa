/** The line scanner behind structural indentation: delimiters outside comments
    and literals, with multi-line state (ovim-core/src/auto_indent.rs). A line is
    a sequence of characters; every pattern matched is ASCII. */
module Scanner {
  import opened Basics

  datatype Delimiter = Open(c: char) | Close(c: char)

  datatype Multiline =
    | BlockComment(start: string, end: string, depth: nat)
    | Literal(end: string)

  datatype LineScan = LineScan(delimiters: seq<Delimiter>, leadingClosers: nat, hasCode: bool)

  datatype Profile = Profile(
    lineComments: seq<string>,
    blockComments: seq<(string, string)>,
    backticks: bool,
    pythonTriples: bool,
    rustRaw: bool,
    rustLifetimes: bool,
    luaLong: bool)

  datatype Language =
    | Rust | JavaScript | TypeScript | Tsx | Python | Ruby | Bash | Dockerfile | Yaml | Toml
    | Properties | Ini | Lua | Sql | Terraform | Hcl | Html | Markdown | TreeSitterQuery | Other

  function ForLanguage(language: Option<Language>): Profile {
    var base := Profile(["//"], [("/*", "*/")], false, false, false, false, false);
    if language.None? then base
    else match language.value
      case Rust => base.(rustRaw := true, rustLifetimes := true)
      case JavaScript => base.(backticks := true)
      case TypeScript => base.(backticks := true)
      case Tsx => base.(backticks := true)
      case Python => base.(lineComments := ["#"], blockComments := [], pythonTriples := true)
      case Ruby => base.(lineComments := ["#"], blockComments := [])
      case Bash => base.(lineComments := ["#"], blockComments := [])
      case Dockerfile => base.(lineComments := ["#"], blockComments := [])
      case Yaml => base.(lineComments := ["#"], blockComments := [])
      case Toml => base.(lineComments := ["#"], blockComments := [])
      case Properties => base.(lineComments := ["#", "!"], blockComments := [])
      case Ini => base.(lineComments := ["#", ";"], blockComments := [])
      case Lua => base.(lineComments := ["--"], blockComments := [("--[[", "]]")], luaLong := true)
      case Sql => base.(lineComments := ["--"])
      case Terraform => base.(lineComments := ["//", "#"])
      case Hcl => base.(lineComments := ["//", "#"])
      case Html => base.(lineComments := [], blockComments := [("<!--", "-->")])
      case Markdown => base.(lineComments := [], blockComments := [("<!--", "-->")])
      case TreeSitterQuery => base.(lineComments := [";"], blockComments := [])
      case Other => base
  }

  /** `is_ascii_whitespace`. */
  predicate IsSpace(c: char) {
    c == ' ' || c == '\t' || c == '\n' || c == '\r' || c == 12 as char
  }

  predicate IsWord(c: char) {
    'a' <= c <= 'z' || 'A' <= c <= 'Z' || '0' <= c <= '9' || c == '_'
  }

  /** A comment or literal mark: not empty and not beginning with a blank. */
  predicate IsMark(s: string) {
    s != "" && !IsBlank(s[0])
  }

  predicate SaneProfile(p: Profile) {
    forall k :: 0 <= k < |p.blockComments| ==> IsMark(p.blockComments[k].0) && IsMark(p.blockComments[k].1)
  }

  predicate SaneState(st: Option<Multiline>) {
    st.Some? ==>
      match st.value
      case BlockComment(start, end, depth) => IsMark(start) && IsMark(end) && depth >= 1
      case Literal(end) => end != ""
  }

  lemma EveryLanguageIsSane(language: Option<Language>)
    ensures SaneProfile(ForLanguage(language))
  {
  }

  // ----- pieces ------------------------------------------------------------------

  function Find(s: string, needle: string): (r: Option<nat>)
    requires needle != ""
    ensures r.Some? ==> r.value + |needle| <= |s| && s[r.value..r.value + |needle|] == needle
  {
    if |s| < |needle| then None
    else if needle <= s then Some(0)
    else
      var r := Find(s[1..], needle);
      if r.None? then None else
        assert s[1..][r.value..r.value + |needle|] == s[r.value + 1..r.value + 1 + |needle|];
        Some(r.value + 1)
  }

  /** Consumes nested comment text: how many characters, and the depth left. */
  function CommentEnd(rest: string, start: string, end: string, depth: nat): (r: (nat, nat))
    requires start != "" && end != "" && depth >= 1
    ensures r.0 <= |rest| && (r.1 > 0 ==> r.0 == |rest|) && (r.1 == 0 ==> r.0 >= 1)
  {
    if rest == "" then (0, depth)
    else if end <= rest then
      if depth == 1 then (|end|, 0)
      else
        var r := CommentEnd(rest[|end|..], start, end, depth - 1);
        (|end| + r.0, r.1)
    else if start <= rest then
      var r := CommentEnd(rest[|start|..], start, end, depth + 1);
      (|start| + r.0, r.1)
    else
      var r := CommentEnd(rest[1..], start, end, depth);
      (1 + r.0, r.1)
  }

  /** Past the closing quote of a literal whose text is `rest`. */
  function QuotedEnd(rest: string, quote: char, escaped: bool): (r: Option<nat>)
    ensures r.Some? ==> 1 <= r.value <= |rest|
  {
    if rest == "" then None
    else if !escaped && rest[0] == quote && rest[0] != '\\' then Some(1)
    else
      var r := QuotedEnd(rest[1..], quote, !escaped && rest[0] == '\\');
      if r.None? then None else Some(r.value + 1)
  }

  function Hashes(s: string): (n: nat)
    ensures n <= |s|
  {
    if s == "" || s[0] != '#' then 0 else 1 + Hashes(s[1..])
  }

  function Repeat(c: char, n: nat): (r: string)
    ensures |r| == n && forall k :: 0 <= k < n ==> r[k] == c
  {
    if n == 0 then "" else Repeat(c, n - 1) + [c]
  }

  /** A raw string opening at the front of `rest`: its length and its end mark. */
  function RustRaw(rest: string): (r: Option<(nat, string)>)
    ensures r.Some? ==> 1 <= r.value.0 <= |rest| && r.value.1 != ""
  {
    var prefix := if rest != "" && (rest[0] == 'b' || rest[0] == 'c') then 1 else 0;
    if prefix >= |rest| || rest[prefix] != 'r' then None
    else
      var n := Hashes(rest[prefix + 1..]);
      if prefix + 1 + n >= |rest| || rest[prefix + 1 + n] != '"' then None
      else Some((prefix + n + 2, "\"" + Repeat('#', n)))
  }

  function BlockStart(rest: string, pairs: seq<(string, string)>): (r: Option<(string, string)>)
    ensures r.Some? ==> r.value in pairs && r.value.0 <= rest
  {
    if pairs == [] then None else if pairs[0].0 <= rest then Some(pairs[0]) else BlockStart(rest, pairs[1..])
  }

  predicate LineCommentAt(rest: string, marks: seq<string>) {
    exists k :: 0 <= k < |marks| && marks[k] <= rest
  }

  // ----- the scan ------------------------------------------------------------------

  /** What one token does: how much it consumes, whether the scan of the line
      ends, whether leading closers may still follow, and the new results. */
  datatype Token = Token(used: nat, stop: bool, leading: bool, scan: LineScan, state: Option<Multiline>)

  function Code(scan: LineScan): LineScan {
    scan.(hasCode := true)
  }

  /** A literal whose text begins at `opening`, in `rest`. */
  function LiteralToken(rest: string, opening: nat, end: string, scan: LineScan): Token
    requires opening <= |rest| && end != ""
  {
    var found := Find(rest[opening..], end);
    if found.Some? then Token(opening + found.value + |end|, false, false, Code(scan), None)
    else Token(opening, false, false, Code(scan), Some(Literal(end)))
  }

  function QuoteToken(rest: string, p: Profile, scan: LineScan): Token
    requires rest != ""
  {
    var end := QuotedEnd(rest[1..], rest[0], false);
    if end.Some? then Token(1 + end.value, false, false, Code(scan), None)
    else if rest[0] == '\'' && p.rustLifetimes then Token(1, false, false, Code(scan), None)
    else if rest[0] == '`' then Token(1, true, false, Code(scan), Some(Literal("`")))
    else Token(1, true, false, Code(scan), None)
  }

  /** A literal with an end mark of its own: how long its opening is, and the mark. */
  function OpeningLiteral(rest: string, wordBefore: bool, p: Profile): (r: Option<(nat, string)>)
    requires rest != ""
    ensures r.Some? ==> 1 <= r.value.0 <= |rest| && r.value.1 != ""
  {
    var raw := if p.rustRaw && !wordBefore then RustRaw(rest) else None;
    if raw.Some? then raw
    else if p.pythonTriples && "\"\"\"" <= rest then Some((3, "\"\"\""))
    else if p.pythonTriples && "'''" <= rest then Some((3, "'''"))
    else if p.luaLong && "[[" <= rest then Some((2, "]]"))
    else None
  }

  /** A single character of code. */
  function DelimiterToken(c: char, leading: bool, scan: LineScan): Token {
    if c == '{' || c == '(' || c == '[' then
      Token(1, false, false, Code(scan).(delimiters := scan.delimiters + [Open(c)]), None)
    else if c == '}' || c == ')' || c == ']' then
      Token(1, false, leading,
            Code(scan).(delimiters := scan.delimiters + [Close(c)],
                        leadingClosers := scan.leadingClosers + if leading then 1 else 0), None)
    else Token(1, false, false, Code(scan), None)
  }

  function CodeToken(rest: string, wordBefore: bool, leading: bool, p: Profile, scan: LineScan): Token
    requires rest != "" && SaneProfile(p)
  {
    var block := BlockStart(rest, p.blockComments);
    var literal := OpeningLiteral(rest, wordBefore, p);
    if IsSpace(rest[0]) then Token(1, false, leading, scan, None)
    else if block.Some? then
      Token(|block.value.0|, false, false, Code(scan), Some(BlockComment(block.value.0, block.value.1, 1)))
    else if LineCommentAt(rest, p.lineComments) then Token(1, true, leading, Code(scan), None)
    else if literal.Some? then LiteralToken(rest, literal.value.0, literal.value.1, scan)
    else if rest[0] == '\'' || rest[0] == '"' || (p.backticks && rest[0] == '`') then QuoteToken(rest, p, scan)
    else DelimiterToken(rest[0], leading, scan)
  }

  /** The rest of a nested comment, as far as it is on this line. */
  function CommentToken(rest: string, start: string, end: string, depth: nat, scan: LineScan): (t: Token)
    requires rest != "" && IsMark(start) && IsMark(end) && depth >= 1
    ensures SaneState(t.state) && 1 <= t.used <= |rest| && !t.stop
  {
    var (used, left) := CommentEnd(rest, start, end, depth);
    assert used >= 1;
    Token(used, false, false, Code(scan), if left > 0 then Some(BlockComment(start, end, left)) else None)
  }

  function EndOfLiteral(rest: string, end: string, scan: LineScan): (t: Token)
    requires SaneState(Some(Literal(end)))
    ensures SaneState(t.state) && t.used <= |rest| && (!t.stop ==> t.used >= 1)
  {
    var found := Find(rest, end);
    if found.Some? then Token(found.value + |end|, false, false, Code(scan), None)
    else Token(0, true, false, Code(scan), Some(Literal(end)))
  }

  function NextToken(rest: string, wordBefore: bool, st: Option<Multiline>, leading: bool, p: Profile,
                     scan: LineScan): (t: Token)
    requires rest != "" && SaneProfile(p) && SaneState(st)
    ensures SaneState(t.state) && t.used <= |rest| && (!t.stop ==> t.used >= 1)
  {
    if st.None? then CodeToken(rest, wordBefore, leading, p, scan)
    else match st.value
      case BlockComment(start, end, depth) => CommentToken(rest, start, end, depth, scan)
      case Literal(end) => EndOfLiteral(rest, end, scan)
  }

  /** Scans the rest of a line; `wordBefore` tells whether a word character
      stands right before it. Returns the results and the state at the line end. */
  function ScanRest(rest: string, wordBefore: bool, st: Option<Multiline>, leading: bool, p: Profile, scan: LineScan)
    : (r: (LineScan, Option<Multiline>))
    requires SaneProfile(p) && SaneState(st)
    ensures SaneState(r.1)
    decreases |rest|, 1
  {
    if rest == "" then (scan, st) else Behind(rest, p, NextToken(rest, wordBefore, st, leading, p, scan))
  }

  /** The scan of what a token leaves of the rest. */
  function Behind(rest: string, p: Profile, t: Token): (r: (LineScan, Option<Multiline>))
    requires SaneProfile(p) && SaneState(t.state) && t.used <= |rest| && (!t.stop ==> t.used >= 1)
    ensures SaneState(r.1)
    decreases |rest|, 0
  {
    if t.stop then (t.scan, t.state)
    else ScanRest(rest[t.used..], IsWord(rest[t.used - 1]), t.state, t.leading, p, t.scan)
  }

  const NOTHING := LineScan([], 0, false)

  function Scan(line: string, st: Option<Multiline>, p: Profile): (r: (LineScan, Option<Multiline>))
    requires SaneProfile(p) && SaneState(st)
    ensures SaneState(r.1)
  {
    ScanRest(line, false, st, true, p, NOTHING)
  }

  // ----- leading blanks do not matter outside a literal -----------------------------

  lemma {:induction false} BlanksInCode(blanks: string, body: string, leading: bool, p: Profile, scan: LineScan)
    requires SaneProfile(p) && AllBlank(blanks)
    ensures ScanRest(blanks + body, false, None, leading, p, scan) == ScanRest(body, false, None, leading, p, scan)
  {
    if blanks == "" {
      assert blanks + body == body;
    } else {
      var rest := blanks + body;
      assert rest[1..] == blanks[1..] + body;
      BlanksInCode(blanks[1..], body, leading, p, scan);
    }
  }

  lemma {:induction false} BlanksInComment(blanks: string, body: string, start: string, end: string, depth: nat)
    requires AllBlank(blanks) && IsMark(start) && IsMark(end) && depth >= 1
    ensures CommentEnd(blanks + body, start, end, depth)
            == (|blanks| + CommentEnd(body, start, end, depth).0, CommentEnd(body, start, end, depth).1)
  {
    if blanks == "" {
      assert blanks + body == body;
    } else {
      var rest := blanks + body;
      assert rest[1..] == blanks[1..] + body;
      assert rest[0] == blanks[0];
      BlanksInComment(blanks[1..], body, start, end, depth);
    }
  }

  /** The scan from `used` characters on, `left` comments deep. */
  function AfterMark(line: string, used: nat, left: nat, start: string, end: string, p: Profile)
    : (LineScan, Option<Multiline>)
    requires SaneProfile(p) && IsMark(start) && IsMark(end) && 1 <= used <= |line|
  {
    ScanRest(line[used..], IsWord(line[used - 1]), if left > 0 then Some(BlockComment(start, end, left)) else None,
             false, p, Code(NOTHING))
  }

  lemma AfterMarkShifted(blanks: string, body: string, used: nat, left: nat, start: string, end: string, p: Profile)
    requires SaneProfile(p) && IsMark(start) && IsMark(end) && 1 <= used <= |body|
    ensures AfterMark(blanks + body, |blanks| + used, left, start, end, p) == AfterMark(body, used, left, start, end, p)
  {
    assert (blanks + body)[|blanks| + used..] == body[used..];
    assert (blanks + body)[|blanks| + used - 1] == body[used - 1];
  }

  /** A line that begins in a comment: skip to the comment's end, then go on. */
  function AfterComment(line: string, start: string, end: string, depth: nat, p: Profile): (LineScan, Option<Multiline>)
    requires SaneProfile(p) && IsMark(start) && IsMark(end) && depth >= 1 && line != ""
  {
    var r := CommentEnd(line, start, end, depth);
    AfterMark(line, r.0, r.1, start, end, p)
  }

  lemma CommentScan(line: string, st: Option<Multiline>, p: Profile)
    requires SaneProfile(p) && SaneState(st) && st.Some? && st.value.BlockComment? && line != ""
    ensures Scan(line, st, p) == AfterComment(line, st.value.start, st.value.end, st.value.depth, p)
  {
    assert Scan(line, st, p) == Behind(line, p, NextToken(line, false, st, true, p, NOTHING));
  }

  lemma BlanksBeforeComment(blanks: string, body: string, start: string, end: string, depth: nat, p: Profile)
    requires SaneProfile(p) && IsMark(start) && IsMark(end) && depth >= 1 && AllBlank(blanks) && body != ""
    ensures AfterComment(blanks + body, start, end, depth, p) == AfterComment(body, start, end, depth, p)
  {
    BlanksInComment(blanks, body, start, end, depth);
    var r := CommentEnd(body, start, end, depth);
    AfterMarkShifted(blanks, body, r.0, r.1, start, end, p);
  }

  lemma CommentThenRest(blanks: string, body: string, st: Option<Multiline>, p: Profile)
    requires SaneProfile(p) && SaneState(st) && st.Some? && st.value.BlockComment? && AllBlank(blanks) && body != ""
    ensures Scan(blanks + body, st, p) == Scan(body, st, p)
  {
    CommentScan(body, st, p);
    CommentScan(blanks + body, st, p);
    BlanksBeforeComment(blanks, body, st.value.start, st.value.end, st.value.depth, p);
  }

  /** Changing the leading blanks of a line that has more on it changes neither
      its delimiters nor the state it ends in, unless it begins in a literal. */
  lemma LeadingBlanksDoNotMatter(blanks: string, blanks': string, body: string, st: Option<Multiline>, p: Profile)
    requires SaneProfile(p) && SaneState(st) && AllBlank(blanks) && AllBlank(blanks')
    requires st.Some? ==> st.value.BlockComment?
    requires body != ""
    ensures Scan(blanks + body, st, p) == Scan(blanks' + body, st, p)
  {
    if st.None? {
      BlanksInCode(blanks, body, true, p, NOTHING);
      BlanksInCode(blanks', body, true, p, NOTHING);
    } else {
      CommentThenRest(blanks, body, st, p);
      CommentThenRest(blanks', body, st, p);
    }
  }

  /** A line of blanks only: no delimiters, no change of state; it counts as
      code exactly when it is inside a comment and not empty. */
  lemma BlankLine(blanks: string, st: Option<Multiline>, p: Profile)
    requires SaneProfile(p) && SaneState(st) && AllBlank(blanks)
    requires st.Some? ==> st.value.BlockComment?
    ensures Scan(blanks, st, p) == (NOTHING.(hasCode := st.Some? && blanks != ""), st)
  {
    if st.None? {
      BlanksInCode(blanks, "", true, p, NOTHING);
      assert blanks + "" == blanks;
    } else if blanks != "" {
      var c := st.value;
      BlanksInComment(blanks, "", c.start, c.end, c.depth);
      assert blanks + "" == blanks;
      assert blanks[|blanks|..] == "";
      assert CommentEnd(blanks, c.start, c.end, c.depth) == (|blanks|, c.depth);
      var t := NextToken(blanks, false, st, true, p, NOTHING);
      assert t == Token(|blanks|, false, false, Code(NOTHING), Some(BlockComment(c.start, c.end, c.depth)));
      assert Scan(blanks, st, p) == Behind(blanks, p, t)
             == ScanRest("", IsWord(blanks[|blanks| - 1]), t.state, false, p, t.scan);
    }
  }
}
