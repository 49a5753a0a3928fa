/** Dot-repeat of an insert session: its recorded edits, re-anchored at a new
    cursor (the `InsertSession` arm of ovim-core/src/repeat_action.rs). Cursors
    are absolute offsets, after the entry mode has placed them. */
module InsertReplay {
  import opened Basics
  import opened Edits

  /** A buffer's text and cursor; a replay leaves `modifiable` alone. */
  datatype Place = Place(text: string, cursor: nat, modifiable: bool := true)

  /** The displacement by `n` towards the start. */
  function Back(n: nat): int {
    0 - n
  }

  /** The edit moved by `delta`, stopping at the start of the text. */
  function Moved(e: Edit, delta: int): Edit {
    e.(offset := if e.offset + delta >= 0 then e.offset + delta else 0)
  }

  function Shift(edits: seq<Edit>, delta: int): (r: seq<Edit>)
    ensures |r| == |edits|
    ensures forall k :: 0 <= k < |r| ==> r[k] == Moved(edits[k], delta)
  {
    seq(|edits|, k requires 0 <= k < |edits| => Moved(edits[k], delta))
  }

  /** One replayed edit: the cursor follows an insertion to its end and a
      deletion to its start. */
  function ReplayEdit(e: Edit, delta: int, s: Place): Place {
    var m := Moved(e, delta);
    var text := m.ApplyIf(s.modifiable, s.text);
    Place(text, Min(m.offset + |m.Added()|, |text|), s.modifiable)
  }

  function ReplayOnce(edits: seq<Edit>, delta: int, s: Place): (r: Place)
    ensures r.modifiable == s.modifiable
  {
    if edits == [] then s
    else ReplayEdit(edits[|edits| - 1], delta, ReplayOnce(edits[..|edits| - 1], delta, s))
  }

  function Replay(edits: seq<Edit>, origin: nat, count: nat, s: Place): Place {
    if count == 0 then s
    else
      var before := Replay(edits, origin, count - 1, s);
      ReplayOnce(edits, before.cursor - origin, before)
  }

  function Here(buffer: Buffer, cursor: nat): Place
    reads buffer
  {
    Place(buffer.text, cursor, buffer.modifiable)
  }

  /** Replays one edit and moves the cursor to the end of what it inserted, or to
      where it deleted. */
  method ReplayOne(e: Edit, delta: int, buffer: Buffer) returns (cursor: nat)
    modifies buffer`text
    ensures forall at :: Here(buffer, cursor) == ReplayEdit(e, delta, old(Here(buffer, at)))
  {
    var moved := Moved(e, delta);
    moved.ApplyTo(buffer);
    match moved {
      case Insert(o, t) => cursor := Min(o + |t|, |buffer.text|);
      case Delete(o, _) => cursor := Min(o, |buffer.text|);
    }
  }

  method ExecuteOnce(edits: seq<Edit>, delta: int, buffer: Buffer, start: nat) returns (cursor: nat)
    modifies buffer`text
    ensures Here(buffer, cursor) == ReplayOnce(edits, delta, old(Here(buffer, start)))
  {
    cursor := start;
    ghost var before := Here(buffer, start);
    for i := 0 to |edits|
      invariant Here(buffer, cursor) == ReplayOnce(edits[..i], delta, before)
    {
      assert edits[..i + 1][..i] == edits[..i];
      cursor := ReplayOne(edits[i], delta, buffer);
    }
    assert edits[..|edits|] == edits;
  }

  method Execute(edits: seq<Edit>, origin: nat, count: nat, buffer: Buffer, start: nat) returns (cursor: nat)
    modifies buffer`text
    ensures Here(buffer, cursor) == Replay(edits, origin, count, old(Here(buffer, start)))
  {
    cursor := start;
    for n := 0 to count
      invariant Here(buffer, cursor) == Replay(edits, origin, n, old(Here(buffer, start)))
    {
      cursor := ExecuteOnce(edits, cursor - origin, buffer, cursor);
    }
  }

  /** A buffer that refuses edits keeps its text however often they are replayed. */
  lemma {:induction false} RefusedReplayKeepsText(edits: seq<Edit>, origin: nat, count: nat, s: Place)
    requires !s.modifiable
    ensures Replay(edits, origin, count, s).text == s.text && !Replay(edits, origin, count, s).modifiable
  {
    if count > 0 {
      RefusedReplayKeepsText(edits, origin, count - 1, s);
      var before := Replay(edits, origin, count - 1, s);
      RefusedOnceKeepsText(edits, before.cursor - origin, before);
    }
  }

  lemma {:induction false} RefusedOnceKeepsText(edits: seq<Edit>, delta: int, s: Place)
    requires !s.modifiable
    ensures ReplayOnce(edits, delta, s).text == s.text
  {
    if edits != [] {
      RefusedOnceKeepsText(edits[..|edits| - 1], delta, s);
    }
  }

  // ----- replay is translation -------------------------------------------------

  function After(prefix: string, s: Place): Place {
    s.(text := prefix + s.text, cursor := |prefix| + s.cursor)
  }

  lemma ReplayEditAfter(e: Edit, delta: int, a: string, s: Place)
    requires e.offset + delta >= |a|
    ensures ReplayEdit(e, delta, After(a, s)) == After(a, ReplayEdit(e, delta - |a|, s))
  {
    var m, m' := Moved(e, delta), Moved(e, delta - |a|);
    assert m.offset == |a| + m'.offset;
    ApplyAfter(m', m, a, s.text);
  }

  lemma ApplyAfter(e: Edit, m: Edit, a: string, s: string)
    requires m == e.(offset := |a| + e.offset)
    ensures m.Apply(a + s) == a + e.Apply(s)
  {
    ApplyClamps(e, s);
    ApplyClamps(m, a + s);
    ClampedSpliceAfter(a, s, e.offset, e.End(), e.Added());
  }

  lemma ApplyClamps(e: Edit, s: string)
    ensures Min(e.offset, |s|) <= Min(e.End(), |s|)
    ensures e.Apply(s) == Splice(s, Min(e.offset, |s|), Min(e.End(), |s|), e.Added())
  {
  }

  lemma ClampedSpliceAfter(a: string, s: string, i: nat, j: nat, t: string)
    requires i <= j
    ensures Min(|a| + i, |a + s|) <= Min(|a| + j, |a + s|)
    ensures Splice(a + s, Min(|a| + i, |a + s|), Min(|a| + j, |a + s|), t) == a + Splice(s, Min(i, |s|), Min(j, |s|), t)
  {
    assert Min(|a| + i, |a + s|) == |a| + Min(i, |s|);
    assert Min(|a| + j, |a + s|) == |a| + Min(j, |s|);
    SpliceAfter(a, s, Min(i, |s|), Min(j, |s|), t);
  }

  lemma SpliceAfter(a: string, s: string, i: nat, j: nat, t: string)
    requires i <= j <= |s|
    ensures Splice(a + s, |a| + i, |a| + j, t) == a + Splice(s, i, j, t)
  {
    assert (a + s)[..|a| + i] == a + s[..i];
    assert (a + s)[|a| + j..] == s[j..];
  }

  /** Replay looks at nothing before the first moved offset: from there on it
      does what it would do if the text began there. */
  lemma {:induction false} ReplayIgnoresPrefix(edits: seq<Edit>, delta: int, a: string, s: Place)
    requires forall k :: 0 <= k < |edits| ==> edits[k].offset + delta >= |a|
    ensures ReplayOnce(edits, delta, After(a, s)) == After(a, ReplayOnce(edits, delta - |a|, s))
  {
    if edits != [] {
      var init := edits[..|edits| - 1];
      ReplayIgnoresPrefix(init, delta, a, s);
      ReplayEditAfter(edits[|edits| - 1], delta, a, ReplayOnce(init, delta - |a|, s));
    }
  }

  /** Repeated at two cursors, in texts that read the same from as far before
      the cursor as the session reached back, the session has the same effect on
      that common part and leaves the rest of both texts alone. */
  lemma ReplayIsTranslation(edits: seq<Edit>, origin: nat, a: string, b: string, s: Place)
    requires forall k :: 0 <= k < |edits| ==> edits[k].offset + s.cursor >= origin
    ensures var r := ReplayOnce(edits, s.cursor - origin, s);
            ReplayOnce(edits, After(a, s).cursor - origin, After(a, s)) == After(a, r) &&
            ReplayOnce(edits, After(b, s).cursor - origin, After(b, s)) == After(b, r)
  {
    ReplayAfter(edits, origin, a, s);
    ReplayAfter(edits, origin, b, s);
  }

  lemma ReplayAfter(edits: seq<Edit>, origin: nat, a: string, s: Place)
    requires forall k :: 0 <= k < |edits| ==> edits[k].offset + s.cursor >= origin
    ensures ReplayOnce(edits, After(a, s).cursor - origin, After(a, s))
            == After(a, ReplayOnce(edits, s.cursor - origin, s))
  {
    ReplayIgnoresPrefix(edits, |a| + s.cursor - origin, a, s);
  }

  /** The moved edits are a faithful translation exactly when the smallest of
      their offsets stays in the text; nearer the start, offsets collapse to 0. */
  lemma TranslationIffInText(edits: seq<Edit>, delta: int)
    requires edits != []
    ensures (forall k :: 0 <= k < |edits| ==> Shift(edits, delta)[k].offset == edits[k].offset + delta)
            <==> Origin(edits) + delta >= 0
  {
    var k :| 0 <= k < |edits| && Origin(edits) == edits[k].offset;
    assert Shift(edits, delta)[k] == Moved(edits[k], delta);
  }

  /** The clamped edit does to `s` what the faithfully moved one does to it where `a`
      stands before it. */
  predicate SameBehind(e: Edit, delta: int, a: string, s: string)
    requires e.offset + delta + |a| >= 0
  {
    a + Moved(e, delta).Apply(s) == Moved(e, delta + |a|).Apply(a + s)
  }

  /** An edit moved before the start of the text edits other characters than its
      translation would, whatever the text, unless it has no text itself. */
  lemma ClampedEditIffEmpty(e: Edit, delta: int, s: string)
    requires e.offset + delta < 0
    ensures (forall a: string :: |a| == 0 - (e.offset + delta) ==> SameBehind(e, delta, a, s)) <==> e.text == ""
  {
    var n: nat := 0 - (e.offset + delta);
    if e.text != "" {
      var a := if e.Insert? then InsertWitness(n, e.text) else DeleteWitness(n, e.text, s);
      if e.Insert? {
        InsertDiffers(n, e.text, s);
      } else {
        DeleteDiffers(n, e.text, s);
      }
      assert !SameBehind(e, delta, a, s);
    } else {
      forall a: string | |a| == n ensures SameBehind(e, delta, a, s) {
        NoTextNoEffect(Moved(e, delta), s);
        NoTextNoEffect(Moved(e, delta + |a|), a + s);
      }
    }
  }

  lemma NoTextNoEffect(e: Edit, s: string)
    requires e.text == ""
    ensures e.Apply(s) == s
  {
  }

  function Other(c: char): char {
    if c == 'a' then 'b' else 'a'
  }

  function Uniform(n: nat, c: char): string {
    seq(n, _ => c)
  }

  function InsertWitness(n: nat, t: string): string
    requires t != ""
  {
    Uniform(n, Other(t[0]))
  }

  lemma InsertDiffers(n: nat, t: string, s: string)
    requires n >= 1 && t != ""
    ensures var a := InsertWitness(n, t); a + Insert(0, t).Apply(s) != Insert(0, t).Apply(a + s)
  {
    var a := InsertWitness(n, t);
    assert (a + Insert(0, t).Apply(s))[0] == Other(t[0]);
    assert Insert(0, t).Apply(a + s)[0] == t[0];
  }

  /** Unlike the character of `s` that takes the place of one of its own. */
  function DeleteWitness(n: nat, t: string, s: string): string {
    Uniform(n, Other(if |t| > |s| || s == "" then 'a' else if |t| >= n >= 1 then s[|t| - n] else s[0]))
  }

  lemma DeleteDiffers(n: nat, t: string, s: string)
    requires n >= 1 && t != ""
    ensures var a := DeleteWitness(n, t, s); a + Delete(0, t).Apply(s) != Delete(0, t).Apply(a + s)
  {
    var a := DeleteWitness(n, t, s);
    DeleteFront(t, s);
    DeleteFront(t, a + s);
    if |t| <= |s| {
      var at := if |t| >= n then 0 else n - |t|;
      assert (a + s[|t|..])[at] == a[at] && (a + s)[|t|..][at] == (a + s)[|t| + at];
    }
  }

  lemma DeleteFront(t: string, s: string)
    ensures Delete(0, t).Apply(s) == s[Min(|t|, |s|)..]
  {
  }

  /** A session that backspaced over one old character and typed another,
      repeated at the start of a text, deletes the character after the cursor. */
  lemma ReplayAtStartDeletesForward()
    ensures var session := [Delete(4, "x"), Insert(4, "y")];
            ReplayOnce(session, 0 - 5, Place("abc", 0)).text == "ybc"
  {
    var session := [Delete(4, "x"), Insert(4, "y")];
    var delta: int := 0 - 5;
    ReplayOnceOne(Delete(4, "x"), delta, Place("abc", 0));
    assert session[..1] == [Delete(4, "x")];
    assert ReplayEdit(Delete(4, "x"), delta, Place("abc", 0)).text == "bc";
  }

  lemma ReplayOnceOne(e: Edit, delta: int, s: Place)
    ensures ReplayOnce([e], delta, s) == ReplayEdit(e, delta, s)
  {
    assert [e][..0] == [];
  }

  // ----- sessions that touch only what they insert ------------------------------

  /** Relative to its origin, every edit fits a document that starts empty. */
  predicate OwnInsertions(edits: seq<Edit>, origin: nat) {
    (forall k :: 0 <= k < |edits| ==> edits[k].offset >= origin) && AllFit(Shift(edits, Back(origin)), 0)
  }

  lemma ShiftInit(edits: seq<Edit>, delta: int)
    requires edits != []
    ensures Shift(edits, delta)[..|edits| - 1] == Shift(edits[..|edits| - 1], delta)
  {
  }

  lemma {:induction false} ReplayTextIsApplyAll(edits: seq<Edit>, delta: int, s: Place)
    requires s.modifiable
    ensures ReplayOnce(edits, delta, s).text == ApplyAll(Shift(edits, delta), s.text)
  {
    if edits != [] {
      ReplayTextIsApplyAll(edits[..|edits| - 1], delta, s);
      ShiftInit(edits, delta);
    }
  }

  lemma EditIgnoresSuffix(e: Edit, s: string, rest: string)
    requires e.Fits(|s|)
    ensures e.Apply(s + rest) == e.Apply(s) + rest
    ensures e.offset + |e.Added()| <= |e.Apply(s)|
  {
    ApplyIsSplice(e, s);
    ApplyIsSplice(e, s + rest);
  }

  lemma {:induction false} FitLength(edits: seq<Edit>, s: string)
    requires AllFit(edits, |s|)
    ensures |ApplyAll(edits, s)| == LengthAfter(edits, |s|)
  {
    if edits != [] {
      FitLength(edits[..|edits| - 1], s);
      ApplyIsSplice(edits[|edits| - 1], ApplyAll(edits[..|edits| - 1], s));
    }
  }

  /** Fitting edits ignore what follows the text they fit. */
  lemma {:induction false} ReplayIgnoresSuffix(edits: seq<Edit>, delta: int, s: Place, rest: string)
    requires AllFit(Shift(edits, delta), |s.text|) && s.cursor <= |s.text| && s.modifiable
    ensures var r := ReplayOnce(edits, delta, s);
            r.cursor <= |r.text| &&
            ReplayOnce(edits, delta, Place(s.text + rest, s.cursor)) == Place(r.text + rest, r.cursor)
  {
    if edits != [] {
      var init, e := edits[..|edits| - 1], edits[|edits| - 1];
      ShiftInit(edits, delta);
      ReplayIgnoresSuffix(init, delta, s, rest);
      var before := ReplayOnce(init, delta, s);
      ReplayTextIsApplyAll(init, delta, s);
      FitLength(Shift(init, delta), s.text);
      EditIgnoresSuffix(Moved(e, delta), before.text, rest);
    }
  }

  lemma {:induction false} ShiftKeepsOrigin(edits: seq<Edit>, d: nat)
    requires edits != [] && forall k :: 0 <= k < |edits| ==> edits[k].offset >= d
    ensures Origin(Shift(edits, Back(d))) == Origin(edits) - d
  {
    if |edits| > 1 {
      ShiftKeepsOrigin(edits[..|edits| - 1], d);
      ShiftInit(edits, Back(d));
    }
  }

  predicate AllFrom(edits: seq<Edit>, origin: nat) {
    forall k :: 0 <= k < |edits| ==> edits[k].offset >= origin
  }

  lemma ShiftKeepsFrom(edits: seq<Edit>, d: nat, origin: nat, origin': nat)
    requires origin' + d == origin && AllFrom(edits, origin)
    ensures AllFrom(Shift(edits, Back(d)), origin')
  {
  }

  lemma SpanOfLast(edits: seq<Edit>, origin: nat)
    requires edits != [] && AllFrom(edits, origin)
    ensures edits[|edits| - 1].offset >= origin && AllFrom(edits[..|edits| - 1], origin)
    ensures SpanOf(edits, origin) == SpanStep(SpanOf(edits[..|edits| - 1], origin), edits[|edits| - 1], origin)
  {
  }

  lemma {:induction false} ShiftKeepsSpan(edits: seq<Edit>, d: nat, origin: nat, origin': nat)
    requires origin' + d == origin && AllFrom(edits, origin)
    ensures AllFrom(Shift(edits, Back(d)), origin')
    ensures SpanOf(Shift(edits, Back(d)), origin') == SpanOf(edits, origin)
  {
    ShiftKeepsFrom(edits, d, origin, origin');
    if edits != [] {
      SpanOfLast(edits, origin);
      SpanOfLast(Shift(edits, Back(d)), origin');
      ShiftInit(edits, Back(d));
      var init, e := edits[..|edits| - 1], edits[|edits| - 1];
      ShiftKeepsSpan(init, d, origin, origin');
      ShiftKeepsSpanStep(SpanOf(init, origin), e, d, origin, origin');
    }
  }

  lemma ShiftKeepsSpanStep(span: seq<Cell>, e: Edit, d: nat, origin: nat, origin': nat)
    requires origin' + d == origin <= e.offset
    ensures SpanStep(span, Moved(e, Back(d)), origin') == SpanStep(span, e, origin)
  {
    var m := Moved(e, Back(d));
    assert m.offset - origin' == e.offset - origin && m.End() - origin' == e.End() - origin;
  }

  lemma ShiftKeepsSurvivors(edits: seq<Edit>, d: nat)
    requires forall k :: 0 <= k < |edits| ==> edits[k].offset >= d
    ensures SurvivingText(Shift(edits, Back(d))) == SurvivingText(edits)
  {
    if edits != [] {
      var origin, rel := Origin(edits), Shift(edits, Back(d));
      ShiftKeepsOrigin(edits, d);
      ShiftKeepsSpan(edits, d, origin, Origin(rel));
    }
  }

  lemma {:induction false} AllInserted(doc: seq<Tagged>)
    requires forall k :: 0 <= k < |doc| ==> doc[k].inserted
    ensures InsertedChars(doc) == Chars(doc)
  {
    if doc != [] {
      AllInserted(doc[..|doc| - 1]);
      assert Chars(doc) == Chars(doc[..|doc| - 1]) + [doc[|doc| - 1].ch];
    }
  }

  lemma {:induction false} FromEmptyAllInserted(edits: seq<Edit>)
    requires AllFit(edits, 0)
    ensures forall k :: 0 <= k < LengthAfter(edits, 0) ==> TaggedReplay(edits, "")[k].inserted
  {
    if edits != [] {
      FromEmptyAllInserted(edits[..|edits| - 1]);
    }
  }

  /** The text such a session leaves is what `surviving_inserted_text` says. */
  lemma OwnTextSurvives(edits: seq<Edit>, origin: nat)
    requires OwnInsertions(edits, origin)
    ensures ApplyAll(Shift(edits, Back(origin)), "") == SurvivingText(edits)
  {
    var rel := Shift(edits, Back(origin));
    SurvivingTextIsInsertedText(rel, "");
    FromEmptyAllInserted(rel);
    AllInserted(TaggedReplay(rel, ""));
    TaggedReplayIsReplay(rel, "");
    ShiftKeepsSurvivors(edits, origin);
  }

  /** One repeat from `from` ends at `to`. */
  predicate Yields(edits: seq<Edit>, origin: nat, from: Place, to: Place) {
    ReplayOnce(edits, from.cursor - origin, from) == to
  }

  /** The cursor between the two parts of a text. */
  function At(a: string, rest: string): Place {
    After(a, Place(rest, 0))
  }

  /** Where the session left the cursor, counted from its origin. */
  function EndCursor(edits: seq<Edit>, origin: nat): nat {
    ReplayOnce(edits, Back(origin), Place("", 0)).cursor
  }

  /** Repeating a session that touched only its own insertions inserts exactly
      its surviving text, at any cursor of any document. */
  lemma ReplayInsertsSurvivors(edits: seq<Edit>, origin: nat, a: string, rest: string)
    requires OwnInsertions(edits, origin)
    ensures Yields(edits, origin, After(a, Place(rest, 0)),
                   After(a, Place(SurvivingText(edits) + rest, EndCursor(edits, origin))))
  {
    ReplayFromEmpty(edits, origin, rest);
    ReplayAfterTo(edits, origin, a, Place(rest, 0), Place(SurvivingText(edits) + rest, EndCursor(edits, origin)));
  }

  lemma ReplayAfterTo(edits: seq<Edit>, origin: nat, a: string, s: Place, r: Place)
    requires forall k :: 0 <= k < |edits| ==> edits[k].offset + s.cursor >= origin
    requires Yields(edits, origin, s, r)
    ensures Yields(edits, origin, After(a, s), After(a, r))
  {
    ReplayAfter(edits, origin, a, s);
  }

  lemma ReplayFromEmpty(edits: seq<Edit>, origin: nat, rest: string)
    requires OwnInsertions(edits, origin)
    ensures Yields(edits, origin, Place(rest, 0), Place(SurvivingText(edits) + rest, EndCursor(edits, origin)))
  {
    var s := Place("", 0);
    ReplayIgnoresSuffix(edits, Back(origin), s, rest);
    ReplayTextIsApplyAll(edits, Back(origin), s);
    OwnTextSurvives(edits, origin);
    assert "" + rest == rest;
    var r := ReplayOnce(edits, Back(origin), s);
    SameEnds(edits, origin, Place("" + rest, 0), Place(r.text + rest, r.cursor),
             Place(rest, 0), Place(SurvivingText(edits) + rest, EndCursor(edits, origin)));
  }

  lemma EndCursorInText(edits: seq<Edit>, origin: nat)
    requires OwnInsertions(edits, origin)
    ensures EndCursor(edits, origin) <= |SurvivingText(edits)|
  {
    var s := Place("", 0);
    ReplayIgnoresSuffix(edits, Back(origin), s, "");
    ReplayTextIsApplyAll(edits, Back(origin), s);
    OwnTextSurvives(edits, origin);
  }

  function Times(s: string, n: nat): string {
    if n == 0 then "" else Times(s, n - 1) + s
  }

  lemma {:induction false} TimesFront(s: string, n: nat)
    ensures Times(s, n) + s == s + Times(s, n)
  {
    if n > 0 {
      TimesFront(s, n - 1);
      assert Times(s, n) + s == (s + Times(s, n - 1)) + s == s + (Times(s, n - 1) + s);
    } else {
      assert "" + s == s == s + "";
    }
  }

  /** `count` copies of `s`, each put where the one before it is cut at `c`. */
  function Piled(a: string, rest: string, s: string, c: nat, count: nat): Place
    requires c <= |s|
  {
    At(a + Times(s[..c], count), Times(s[c..], count) + rest)
  }

  predicate Repeats(edits: seq<Edit>, origin: nat, count: nat, from: Place, to: Place) {
    Replay(edits, origin, count, from) == to
  }

  lemma OneMoreRound(edits: seq<Edit>, origin: nat, count: nat, from: Place, mid: Place, to: Place)
    requires Repeats(edits, origin, count, from, mid) && Yields(edits, origin, mid, to)
    ensures Repeats(edits, origin, count + 1, from, to)
  {
  }

  lemma SameEnds(edits: seq<Edit>, origin: nat, from: Place, to: Place, from': Place, to': Place)
    requires Yields(edits, origin, from, to) && from == from' && to == to'
    ensures Yields(edits, origin, from', to')
  {
  }

  /** With a count, each round starts where the last one left the cursor: the
      text before that point piles up on the left, the text after it on the right. */
  lemma CountedReplay(edits: seq<Edit>, origin: nat, count: nat, a: string, rest: string, s: string, c: nat)
    requires OwnInsertions(edits, origin)
    requires s == SurvivingText(edits) && c == EndCursor(edits, origin)
    ensures c <= |s|
    ensures Repeats(edits, origin, count, At(a, rest), Piled(a, rest, s, c, count))
  {
    EndCursorInText(edits, origin);
    forall n: nat | n < count
      ensures Yields(edits, origin, Piled(a, rest, s, c, n), Piled(a, rest, s, c, n + 1))
    {
      NextRound(edits, origin, n + 1, a, rest, s, c);
    }
    var stage := (n: nat) => Piled(a, rest, s, c, n);
    Rounds(edits, origin, count, stage);
    NoRounds(a, rest, s, c);
  }

  lemma {:induction false} Rounds(edits: seq<Edit>, origin: nat, count: nat, stage: nat -> Place)
    requires forall n: nat :: n < count ==> Yields(edits, origin, stage(n), stage(n + 1))
    ensures Repeats(edits, origin, count, stage(0), stage(count))
  {
    if count > 0 {
      Rounds(edits, origin, count - 1, stage);
      OneMoreRound(edits, origin, count - 1, stage(0), stage(count - 1), stage(count));
    }
  }

  lemma NextRound(edits: seq<Edit>, origin: nat, count: nat, a: string, rest: string, s: string, c: nat)
    requires OwnInsertions(edits, origin) && count > 0
    requires s == SurvivingText(edits) && c == EndCursor(edits, origin) <= |s|
    ensures Yields(edits, origin, Piled(a, rest, s, c, count - 1), Piled(a, rest, s, c, count))
  {
    var a', rest' := a + Times(s[..c], count - 1), Times(s[c..], count - 1) + rest;
    ReplayInsertsSurvivors(edits, origin, a', rest');
    OneMore(a, rest, s, c, count);
    SameEnds(edits, origin, After(a', Place(rest', 0)), After(a', Place(s + rest', c)),
             Piled(a, rest, s, c, count - 1), Piled(a, rest, s, c, count));
  }

  lemma NoRounds(a: string, rest: string, s: string, c: nat)
    requires c <= |s|
    ensures Piled(a, rest, s, c, 0) == At(a, rest)
  {
    assert a + "" == a && "" + rest == rest;
  }

  lemma OneMore(a: string, rest: string, s: string, c: nat, count: nat)
    requires c <= |s| && count > 0
    ensures After(a + Times(s[..c], count - 1), Place(s + (Times(s[c..], count - 1) + rest), c))
            == Piled(a, rest, s, c, count)
  {
    var left, right := Times(s[..c], count - 1), Times(s[c..], count - 1);
    TimesFront(s[c..], count - 1);
    assert (a + left) + (s + (right + rest)) == (a + (left + s[..c])) + ((s[c..] + right) + rest);
  }
}
