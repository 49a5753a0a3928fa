/** Bracket pairs around the cursor (`paired_delimiters_around` of
    ovim-core/src/textobjects.rs), in absolute offsets and in lines. */
module TextObjects {
  import opened Basics
  import opened Lines

  /** Opening minus closing delimiters before offset `k`. */
  function Balance(s: string, open: char, close: char, k: nat): int
    requires k <= |s|
  {
    if k == 0 then 0
    else Balance(s, open, close, k - 1) +
         if s[k - 1] == open then 1 else if s[k - 1] == close then -1 else 0
  }

  /** `i` and `j` are a matching pair: balanced between, and never closed before. */
  ghost predicate IsPair(s: string, open: char, close: char, i: nat, j: nat) {
    i < j < |s| && s[i] == open && s[j] == close &&
    Balance(s, open, close, j) == Balance(s, open, close, i + 1) &&
    forall k :: i < k <= j ==> Balance(s, open, close, k) >= Balance(s, open, close, i + 1)
  }

  /** A pair with the cursor on or between its delimiters. */
  ghost predicate IsPairAround(s: string, open: char, close: char, cursor: nat, i: nat, j: nat) {
    IsPair(s, open, close, i, j) && i <= cursor <= j
  }

  ghost predicate NoPairAround(s: string, open: char, close: char, cursor: nat) {
    forall i: nat, j: nat :: !IsPairAround(s, open, close, cursor, i, j)
  }

  /** A pair around the cursor that lies inside every other one. */
  ghost predicate IsInnermost(s: string, open: char, close: char, cursor: nat, i: nat, j: nat) {
    IsPairAround(s, open, close, cursor, i, j) &&
    forall i': nat, j': nat :: IsPairAround(s, open, close, cursor, i', j') ==> i' <= i && j <= j'
  }

  /** An opening delimiter at or before the cursor, unmatched up to it. */
  ghost predicate OpensCursor(s: string, open: char, close: char, cursor: nat, i: nat)
    requires cursor <= |s|
  {
    i < |s| && i <= cursor && s[i] == open &&
    (i < cursor ==> Balance(s, open, close, i + 1) == Balance(s, open, close, cursor)) &&
    (i < cursor < |s| ==> s[cursor] != open) &&
    forall k :: i < k <= cursor ==> Balance(s, open, close, k) >= Balance(s, open, close, cursor)
  }

  /** Nothing opens the cursor. */
  ghost predicate NothingOpens(s: string, open: char, close: char, cursor: nat)
    requires cursor <= |s|
  {
    (cursor < |s| ==> s[cursor] != open) &&
    forall k :: 0 <= k <= cursor ==> Balance(s, open, close, k) >= Balance(s, open, close, cursor)
  }

  /** The opening delimiter at `i` is never closed. */
  ghost predicate Unclosed(s: string, open: char, close: char, i: nat)
    requires i < |s|
  {
    forall k :: i < k <= |s| ==> Balance(s, open, close, k) >= Balance(s, open, close, i + 1)
  }

  /** The first opening delimiter from the cursor to the end of its line. */
  ghost predicate FirstLater(s: string, open: char, cursor: nat, lineEnd: nat, i: nat)
    requires lineEnd <= |s|
  {
    cursor <= i < lineEnd && s[i] == open && forall k :: cursor <= k < i ==> s[k] != open
  }

  /** The pair a search settles on: the innermost around the cursor; with look-ahead and
      nothing that opens the cursor, the first that opens later on its line. */
  ghost predicate Chosen(s: string, open: char, close: char, cursor: nat, lineEnd: nat, lookAhead: bool, i: nat, j: nat)
    requires cursor <= lineEnd <= |s|
  {
    IsInnermost(s, open, close, cursor, i, j) ||
    (lookAhead && NothingOpens(s, open, close, cursor) && FirstLater(s, open, cursor, lineEnd, i) &&
     IsPair(s, open, close, i, j))
  }

  /** There is none: no pair is around the cursor, and with look-ahead something opens the
      cursor and is not closed, or nothing opens later on the line, or the first that
      does is not closed. */
  ghost predicate NoneChosen(s: string, open: char, close: char, cursor: nat, lineEnd: nat, lookAhead: bool)
    requires cursor <= lineEnd <= |s|
  {
    NoPairAround(s, open, close, cursor) &&
    (lookAhead ==>
       (exists o: nat :: OpensCursor(s, open, close, cursor, o) && Unclosed(s, open, close, o)) ||
       (forall k :: cursor <= k < lineEnd ==> s[k] != open) ||
       (exists i: nat :: FirstLater(s, open, cursor, lineEnd, i) && Unclosed(s, open, close, i)))
  }

  lemma NothingOpensIt(s: string, open: char, close: char, cursor: nat)
    requires open != close && cursor <= |s| && NothingOpens(s, open, close, cursor)
    ensures forall o: nat :: !OpensCursor(s, open, close, cursor, o)
  {
    forall o: nat ensures !OpensCursor(s, open, close, cursor, o) {
      if o < cursor {
        assert s[o] == open ==> Balance(s, open, close, o + 1) == Balance(s, open, close, o) + 1;
      }
    }
  }

  lemma PairIsClosed(s: string, open: char, close: char, i: nat, j: nat, j': nat)
    requires open != close && IsPair(s, open, close, i, j)
    ensures !Unclosed(s, open, close, i)
    ensures IsPair(s, open, close, i, j') ==> j' == j
  {
    assert Balance(s, open, close, j + 1) < Balance(s, open, close, i + 1);
    if IsPair(s, open, close, i, j') {
      assert Balance(s, open, close, j' + 1) < Balance(s, open, close, i + 1);
    }
  }

  /** Never both. */
  lemma ChosenOrNone(s: string, open: char, close: char, cursor: nat, lineEnd: nat, lookAhead: bool, i: nat, j: nat)
    requires open != close && cursor <= lineEnd <= |s| && Chosen(s, open, close, cursor, lineEnd, lookAhead, i, j)
    ensures !NoneChosen(s, open, close, cursor, lineEnd, lookAhead)
  {
    if !IsInnermost(s, open, close, cursor, i, j) {
      PairIsClosed(s, open, close, i, j, j);
      NothingOpensIt(s, open, close, cursor);
    }
  }

  /** Never two. */
  lemma ChosenOnce(s: string, open: char, close: char, cursor: nat, lineEnd: nat, lookAhead: bool, i: nat, j: nat,
                   i': nat, j': nat)
    requires open != close && cursor <= lineEnd <= |s|
    requires Chosen(s, open, close, cursor, lineEnd, lookAhead, i, j) &&
             Chosen(s, open, close, cursor, lineEnd, lookAhead, i', j')
    ensures i == i' && j == j'
  {
    if NothingOpens(s, open, close, cursor) {
      NoPairWithoutOpen(s, open, close, cursor);
      PairIsClosed(s, open, close, i, j, j');
    }
  }

  method FindOpen(s: string, open: char, close: char, cursor: nat) returns (r: Option<nat>)
    requires open != close && cursor <= |s|
    ensures r.Some? ==> OpensCursor(s, open, close, cursor, r.value)
    ensures r.None? ==> NothingOpens(s, open, close, cursor)
  {
    if cursor < |s| && s[cursor] == open {
      return Some(cursor);
    }
    var depth := 0;
    var i := cursor;
    while i > 0
      invariant 0 <= i <= cursor && depth >= 0
      invariant Balance(s, open, close, i) == Balance(s, open, close, cursor) + depth
      invariant forall k :: i <= k <= cursor ==> Balance(s, open, close, k) >= Balance(s, open, close, cursor)
    {
      i := i - 1;
      if s[i] == close {
        depth := depth + 1;
      } else if s[i] == open {
        if depth == 0 {
          return Some(i);
        }
        depth := depth - 1;
      }
    }
    return None;
  }

  method FindClose(s: string, open: char, close: char, from: nat) returns (r: Option<nat>)
    requires open != close && from < |s| && s[from] == open
    ensures r.Some? ==> IsPair(s, open, close, from, r.value)
    ensures r.None? ==> Unclosed(s, open, close, from)
  {
    var depth := 0;
    for i := from + 1 to |s|
      invariant depth >= 0 && Balance(s, open, close, i) == Balance(s, open, close, from + 1) + depth
      invariant forall k :: from < k <= i ==> Balance(s, open, close, k) >= Balance(s, open, close, from + 1)
    {
      if s[i] == open {
        depth := depth + 1;
      } else if s[i] == close {
        if depth == 0 {
          return Some(i);
        }
        depth := depth - 1;
      }
    }
    return None;
  }

  /** The delimiters the search settles on. */
  method PairAround(s: string, open: char, close: char, cursor: nat, lineEnd: nat, lookAhead: bool)
    returns (r: Option<(nat, nat)>)
    requires open != close && cursor <= lineEnd <= |s|
    ensures r.Some? ==> Chosen(s, open, close, cursor, lineEnd, lookAhead, r.value.0, r.value.1)
    ensures r.None? <==> NoneChosen(s, open, close, cursor, lineEnd, lookAhead)
  {
    var start := FindOpen(s, open, close, cursor);
    ghost var inside := start.Some?;
    if start.None? {
      NoPairWithoutOpen(s, open, close, cursor);
      if lookAhead {
        var i := cursor;
        while i < lineEnd && s[i] != open
          invariant cursor <= i <= lineEnd
          invariant forall k :: cursor <= k < i ==> s[k] != open
        {
          i := i + 1;
        }
        if i < lineEnd {
          start := Some(i);
        }
      }
    }
    if start.None? {
      return None;
    }
    var end := FindClose(s, open, close, start.value);
    if end.None? {
      if inside {
        NoPairIfUnclosed(s, open, close, cursor, start.value);
      }
      return None;
    }
    if inside {
      OpenedPairIsInnermost(s, open, close, cursor, start.value, end.value);
    }
    ChosenOrNone(s, open, close, cursor, lineEnd, lookAhead, start.value, end.value);
    return Some((start.value, end.value));
  }

  /** A pair around the cursor begins with an opening delimiter whose level is
      at most the cursor's. */
  lemma PairStaysAbove(s: string, open: char, close: char, cursor: nat, i: nat, j: nat)
    requires open != close && cursor <= |s| && IsPairAround(s, open, close, cursor, i, j)
    ensures i < cursor ==>
              Balance(s, open, close, i) + 1 == Balance(s, open, close, i + 1) <= Balance(s, open, close, cursor)
  {
  }

  lemma NoPairWithoutOpen(s: string, open: char, close: char, cursor: nat)
    requires open != close && cursor <= |s|
    requires cursor < |s| ==> s[cursor] != open
    requires forall k :: 0 <= k <= cursor ==> Balance(s, open, close, k) >= Balance(s, open, close, cursor)
    ensures NoPairAround(s, open, close, cursor)
  {
    forall i: nat, j: nat ensures !IsPairAround(s, open, close, cursor, i, j) {
      if IsPairAround(s, open, close, cursor, i, j) {
        PairStaysAbove(s, open, close, cursor, i, j);
      }
    }
  }

  /** Any pair around the cursor encloses the unmatched opening found before it. */
  lemma PairEnclosesOpen(s: string, open: char, close: char, cursor: nat, o: nat, i: nat, j: nat)
    requires open != close && cursor <= |s| && OpensCursor(s, open, close, cursor, o)
    requires IsPairAround(s, open, close, cursor, i, j)
    ensures i <= o && (i < o ==> Balance(s, open, close, i + 1) <= Balance(s, open, close, o))
    ensures Balance(s, open, close, j + 1) < Balance(s, open, close, o + 1)
    ensures o < j
  {
    if i > o {
      PairStaysAbove(s, open, close, cursor, i, j);
    }
  }

  lemma NoPairIfUnclosed(s: string, open: char, close: char, cursor: nat, o: nat)
    requires open != close && cursor <= |s| && OpensCursor(s, open, close, cursor, o)
    requires forall k :: o < k <= |s| ==> Balance(s, open, close, k) >= Balance(s, open, close, o + 1)
    ensures NoPairAround(s, open, close, cursor)
  {
    forall i: nat, j: nat ensures !IsPairAround(s, open, close, cursor, i, j) {
      if IsPairAround(s, open, close, cursor, i, j) {
        PairEnclosesOpen(s, open, close, cursor, o, i, j);
      }
    }
  }

  /** The pair of the unmatched opening holds the cursor, inside every other
      pair that does. */
  lemma OpenedPairIsInnermost(s: string, open: char, close: char, cursor: nat, o: nat, c: nat)
    requires open != close && cursor <= |s|
    requires OpensCursor(s, open, close, cursor, o) && IsPair(s, open, close, o, c)
    ensures IsInnermost(s, open, close, cursor, o, c)
  {
    if c < cursor {
      assert Balance(s, open, close, c + 1) < Balance(s, open, close, o + 1);
    }
    forall i: nat, j: nat | IsPairAround(s, open, close, cursor, i, j) ensures i <= o && c <= j {
      PairEnclosesOpen(s, open, close, cursor, o, i, j);
    }
  }

  // ----- the ranges returned -----------------------------------------------------

  datatype TextObjectRange = TextObjectRange(startLine: nat, startCol: nat, endLine: nat, endCol: nat)

  /** The text between the delimiters, less the line breaks next to them. */
  function InnerBounds(s: string, pair: (nat, nat)): (nat, nat)
    requires pair.0 < pair.1 < |s|
  {
    var (o, c) := pair;
    var from := if o + 1 < |s| && s[o + 1] == '\n' then o + 2 else o + 1;
    var closeStart := c - ColOf(s, c);
    var to := if LineOf(s, c) > LineOf(s, o) && closeStart >= 0 && AllBlank(s[closeStart..c]) then closeStart else c;
    (from, to)
  }

  /** Nothing but blanks stands between the last break and `c`, if there is one behind `o`. */
  predicate BreakBefore(s: string, o: nat, c: nat, b: nat) {
    o < b < c <= |s| && s[b] == '\n' && AllBlank(s[b + 1..c])
  }

  lemma BreakIsLast(s: string, o: nat, c: nat, b: nat)
    requires BreakBefore(s, o, c, b)
    ensures c - ColOf(s, c) == b + 1
  {
    ColumnCounts(s, c);
    var start := c - ColOf(s, c);
    assert start > b;
    forall k | b < k < c ensures s[k] != '\n' {
      assert s[k] == s[b + 1..c][k - (b + 1)];
    }
  }

  /** The line of `c` begins behind a break that stands behind `o`. */
  lemma BreakOnTheWay(s: string, o: nat, c: nat)
    requires o < c <= |s| && s[o] != '\n'
    ensures LineOf(s, c) >= LineOf(s, o)
    ensures LineOf(s, c) > LineOf(s, o) ==> o < c - ColOf(s, c) - 1 && s[c - ColOf(s, c) - 1] == '\n'
    ensures LineOf(s, c) == LineOf(s, o) ==> forall k :: o <= k < c ==> s[k] != '\n'
  {
    ColumnCounts(s, c);
    SameLineExactly(s, o, c);
    if '\n' in s[o..c] {
      var k :| 0 <= k < |s[o..c]| && s[o..c][k] == '\n';
      assert s[o + k] == '\n';
    } else {
      forall k | o <= k < c ensures s[k] != '\n' {
        assert s[k] == s[o..c][k - o];
      }
    }
  }

  /** Where the text between the delimiters begins and ends. */
  predicate DropsOnly(s: string, o: nat, c: nat, from: nat, to: nat) {
    o < from <= to <= c < |s| && from == (if s[o + 1] == '\n' then o + 2 else o + 1) &&
    (forall b :: o < b < c && BreakBefore(s, o, c, b) ==> to == b + 1) &&
    ((forall b :: o < b < c ==> !BreakBefore(s, o, c, b)) ==> to == c)
  }

  lemma InnerEnds(s: string, o: nat, c: nat, b: nat)
    requires o < c < |s| && s[o] != '\n' && BreakBefore(s, o, c, b)
    ensures InnerBounds(s, (o, c)).1 == b + 1
  {
    BreakIsLast(s, o, c, b);
    BreakOnTheWay(s, o, c);
  }

  lemma InnerEndsAtClose(s: string, o: nat, c: nat)
    requires o < c < |s| && s[o] != '\n'
    requires forall b :: o < b < c ==> !BreakBefore(s, o, c, b)
    ensures InnerBounds(s, (o, c)).1 == c
  {
    BreakOnTheWay(s, o, c);
    ColumnCounts(s, c);
    if LineOf(s, c) > LineOf(s, o) {
      assert !BreakBefore(s, o, c, c - ColOf(s, c) - 1);
    }
  }

  /** Without the delimiters: no character between them is dropped but a break right behind
      the opening one, and, in front of the closing one, blanks that a break stands before. */
  lemma InnerDropsOnly(s: string, pair: (nat, nat))
    requires pair.0 < pair.1 < |s| && s[pair.0] != '\n' && s[pair.1] != '\n'
    ensures DropsOnly(s, pair.0, pair.1, InnerBounds(s, pair).0, InnerBounds(s, pair).1)
  {
    var (o, c) := pair;
    forall b | o < b < c && BreakBefore(s, o, c, b) ensures InnerBounds(s, pair).1 == b + 1 {
      InnerEnds(s, o, c, b);
    }
    if forall b :: o < b < c ==> !BreakBefore(s, o, c, b) {
      InnerEndsAtClose(s, o, c);
    } else {
      var b :| o < b < c && BreakBefore(s, o, c, b);
      assert InnerBounds(s, pair).1 == b + 1;
    }
  }

  function RangeOf(s: string, from: nat, to: nat): TextObjectRange
    requires from <= |s| && to <= |s|
  {
    TextObjectRange(LineOf(s, from), ColOf(s, from), LineOf(s, to), ColOf(s, to))
  }

  /** The offset a range's start or end denotes. */
  function OffsetAt(s: string, line: nat, col: nat): nat
    requires line < RawLineCount(s)
  {
    LineStart(s, line) + col
  }

  /** A range in lines and columns denotes the offsets it was made from. */
  lemma RangeDenotesOffsets(s: string, from: nat, to: nat)
    requires from <= |s| && to <= |s|
    ensures var r := RangeOf(s, from, to);
            r.startLine < RawLineCount(s) && OffsetAt(s, r.startLine, r.startCol) == from &&
            r.endLine < RawLineCount(s) && OffsetAt(s, r.endLine, r.endCol) == to
  {
    LineColRoundTrip(s, from);
    LineColRoundTrip(s, to);
  }

  /** The chosen pair has something between its delimiters, or not. */
  ghost predicate Shows(s: string, pair: (nat, nat))
    requires pair.0 < pair.1 < |s|
  {
    InnerBounds(s, pair).0 < InnerBounds(s, pair).1 <= |s|
  }

  ghost predicate NothingShown(s: string, open: char, close: char, cursor: nat, lineEnd: nat, around: bool,
                               lookAhead: bool)
    requires cursor <= lineEnd <= |s|
  {
    NoneChosen(s, open, close, cursor, lineEnd, lookAhead) ||
    (!around && exists i: nat, j: nat :: ChosenHollow(s, open, close, cursor, lineEnd, lookAhead, i, j))
  }

  ghost predicate ChosenHollow(s: string, open: char, close: char, cursor: nat, lineEnd: nat, lookAhead: bool, i: nat,
                               j: nat)
    requires cursor <= lineEnd <= |s|
  {
    Chosen(s, open, close, cursor, lineEnd, lookAhead, i, j) && !Shows(s, (i, j))
  }

  ghost predicate ChosenRange(s: string, open: char, close: char, cursor: nat, lineEnd: nat, around: bool,
                              lookAhead: bool, i: nat, j: nat, range: TextObjectRange)
    requires cursor <= lineEnd <= |s|
  {
    Chosen(s, open, close, cursor, lineEnd, lookAhead, i, j) && (around || Shows(s, (i, j))) &&
    range == if around then RangeOf(s, i, j + 1) else RangeOf(s, InnerBounds(s, (i, j)).0, InnerBounds(s, (i, j)).1)
  }

  /** The range of the chosen pair: nothing exactly when none is chosen or, without the
      delimiters, when there is nothing between them. */
  ghost predicate Answers(s: string, open: char, close: char, cursor: nat, lineEnd: nat, around: bool, lookAhead: bool,
                          r: Option<TextObjectRange>)
    requires cursor <= lineEnd <= |s|
  {
    match r
    case None => NothingShown(s, open, close, cursor, lineEnd, around, lookAhead)
    case Some(range) =>
      !NothingShown(s, open, close, cursor, lineEnd, around, lookAhead) &&
      exists i: nat, j: nat :: ChosenRange(s, open, close, cursor, lineEnd, around, lookAhead, i, j, range)
  }

  /** What a pair yields with its delimiters or without. */
  function RangeOfPair(s: string, pair: (nat, nat), around: bool): Option<TextObjectRange>
    requires pair.0 < pair.1 < |s|
  {
    if around then Some(RangeOf(s, pair.0, pair.1 + 1))
    else
      var (from, to) := InnerBounds(s, pair);
      if from >= to then None else Some(RangeOf(s, from, to))
  }

  lemma ChosenAnswers(s: string, open: char, close: char, cursor: nat, lineEnd: nat, around: bool, lookAhead: bool,
                      pair: (nat, nat))
    requires open != close && cursor <= lineEnd <= |s|
    requires Chosen(s, open, close, cursor, lineEnd, lookAhead, pair.0, pair.1) && pair.0 < pair.1 < |s|
    ensures Answers(s, open, close, cursor, lineEnd, around, lookAhead, RangeOfPair(s, pair, around))
  {
    ChosenOrNone(s, open, close, cursor, lineEnd, lookAhead, pair.0, pair.1);
    assert Shows(s, pair) || ChosenHollow(s, open, close, cursor, lineEnd, lookAhead, pair.0, pair.1);
    if around || Shows(s, pair) {
      assert ChosenRange(s, open, close, cursor, lineEnd, around, lookAhead, pair.0, pair.1,
                         RangeOfPair(s, pair, around).value);
    }
    if !around && Shows(s, pair) {
      forall i: nat, j: nat | Chosen(s, open, close, cursor, lineEnd, lookAhead, i, j) ensures (i, j) == pair {
        ChosenOnce(s, open, close, cursor, lineEnd, lookAhead, i, j, pair.0, pair.1);
      }
    }
  }

  /** With the delimiters the range is `[open, close]`; without, the bounds of the
      inner text, or nothing if that is empty. */
  method PairedDelimitersAround(s: string, open: char, close: char, cursorLine: nat, cursorCol: nat,
                                around: bool, lookAhead: bool) returns (r: Option<TextObjectRange>)
    requires open != close
    requires cursorLine < LineCount(s) ==> cursorCol <= LineLen(s, cursorLine)
    ensures cursorLine >= LineCount(s) ==> r == None
    ensures cursorLine < LineCount(s) ==>
              var cursor := OffsetAt(s, cursorLine, cursorCol);
              var lineEnd := OffsetAt(s, cursorLine, LineLen(s, cursorLine));
              cursor <= lineEnd <= |s| && Answers(s, open, close, cursor, lineEnd, around, lookAhead, r)
  {
    if cursorLine >= LineCount(s) {
      return None;
    }
    LineEndFits(s, cursorLine);
    var cursor := LineStart(s, cursorLine) + cursorCol;
    var lineEnd := LineStart(s, cursorLine) + LineLen(s, cursorLine);
    var pair := PairAround(s, open, close, cursor, lineEnd, lookAhead);
    if pair.None? {
      return None;
    }
    ChosenAnswers(s, open, close, cursor, lineEnd, around, lookAhead, pair.value);
    r := RangeOfPair(s, pair.value, around);
  }
}
