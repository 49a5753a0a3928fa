/** Where dot-repeat leaves the cursor, and what repeating a session of plain typing
    does (the `InsertSession` arm of ovim-core/src/repeat_action.rs). */
module TypedSessions {
  import opened Basics
  import opened Edits
  import opened InsertReplay

  // ----- the cursor after any session ---------------------------------------------

  /** The two parts of a text on either side of the cursor. */
  predicate Between(s: Place, left: string, right: string) {
    s.text == left + right && s.cursor == |left|
  }

  /** `r` is `before` with the edit made at `at`, and the cursor behind what it inserted, or
      where the text it deleted began. A buffer that refuses edits still moves its cursor,
      as far as its text goes. */
  predicate EndsAtEdit(e: Edit, at: nat, modifiable: bool, before: string, r: Place) {
    var from, to := Min(at, |before|), Min(at + |e.text|, |before|);
    if modifiable then
      Between(r, before[..from] + if e.Insert? then e.text else "", before[if e.Insert? then from else to..])
    else r.text == before && r.cursor == if e.Insert? then to else from
  }

  lemma InsertionEnds(o: nat, t: string, delta: int, s: Place)
    ensures EndsAtEdit(Insert(o, t), Moved(Insert(o, t), delta).offset, s.modifiable, s.text,
                       ReplayEdit(Insert(o, t), delta, s))
  {
    var at := Moved(Insert(o, t), delta).offset;
    var from := Min(at, |s.text|);
    assert s.text[..from] + t + s.text[from..] == (s.text[..from] + t) + s.text[from..];
  }

  lemma DeletionEnds(o: nat, t: string, delta: int, s: Place)
    ensures EndsAtEdit(Delete(o, t), Moved(Delete(o, t), delta).offset, s.modifiable, s.text,
                       ReplayEdit(Delete(o, t), delta, s))
  {
    var at := Moved(Delete(o, t), delta).offset;
    var from, to := Min(at, |s.text|), Min(at + |t|, |s.text|);
    assert s.text[..from] + "" + s.text[to..] == (s.text[..from] + "") + s.text[to..];
  }

  /** The last edit of a replayed session decides where the cursor is. */
  lemma CursorIsAtLastEdit(edits: seq<Edit>, delta: int, s: Place)
    requires edits != []
    ensures var e, before := edits[|edits| - 1], ReplayOnce(edits[..|edits| - 1], delta, s).text;
            EndsAtEdit(e, if e.offset + delta >= 0 then e.offset + delta else 0, s.modifiable, before,
                       ReplayOnce(edits, delta, s))
  {
    var e, prior := edits[|edits| - 1], ReplayOnce(edits[..|edits| - 1], delta, s);
    match e {
      case Insert(o, t) => InsertionEnds(o, t, delta, prior);
      case Delete(o, t) => DeletionEnds(o, t, delta, prior);
    }
  }

  // ----- plain typing ----------------------------------------------------------------

  /** What is on the screen after typing: deletions take the last characters back. */
  function Typing(edits: seq<Edit>): string {
    if edits == [] then ""
    else
      var before, e := Typing(edits[..|edits| - 1]), edits[|edits| - 1];
      match e
      case Insert(_, t) => before + t
      case Delete(_, t) => if |t| <= |before| then before[..|before| - |t|] else before
  }

  /** Every edit was made at the end of what had been typed: a key, or a backspace. */
  predicate TypedFrom(edits: seq<Edit>, origin: nat) {
    forall k :: 0 <= k < |edits| ==> MadeAtEnd(edits[k], origin, Typing(edits[..k]))
  }

  predicate MadeAtEnd(e: Edit, origin: nat, typed: string) {
    match e
    case Insert(o, _) => o == origin + |typed|
    case Delete(o, t) => |t| <= |typed| && o + |t| == origin + |typed|
  }

  lemma TypedInit(edits: seq<Edit>, origin: nat)
    requires edits != [] && TypedFrom(edits, origin)
    ensures TypedFrom(edits[..|edits| - 1], origin)
    ensures MadeAtEnd(edits[|edits| - 1], origin, Typing(edits[..|edits| - 1]))
  {
    var init := edits[..|edits| - 1];
    forall k | 0 <= k < |init| ensures MadeAtEnd(init[k], origin, Typing(init[..k])) {
      assert init[..k] == edits[..k];
    }
  }

  lemma TypedStep(e: Edit, origin: nat, typed: string)
    requires MadeAtEnd(e, origin, typed)
    ensures e.offset >= origin && Moved(e, Back(origin)).Fits(|typed|)
    ensures var after := if e.Insert? then typed + e.text else typed[..|typed| - |e.text|];
            ReplayEdit(e, Back(origin), Place(typed, |typed|)) == Place(after, |after|)
  {
  }

  lemma {:induction false} TypedSessionFits(edits: seq<Edit>, origin: nat)
    requires TypedFrom(edits, origin)
    ensures OwnInsertions(edits, origin)
    ensures ReplayOnce(edits, Back(origin), Place("", 0)) == Place(Typing(edits), |Typing(edits)|)
    ensures LengthAfter(Shift(edits, Back(origin)), 0) == |Typing(edits)|
  {
    if edits != [] {
      var init, e := edits[..|edits| - 1], edits[|edits| - 1];
      TypedInit(edits, origin);
      TypedSessionFits(init, origin);
      TypedStep(e, origin, Typing(init));
      ShiftInit(edits, Back(origin));
    }
  }

  /** What a typed session leaves is what was typed and not taken back, and the cursor is
      behind all of it. */
  lemma CursorBehindTyped(edits: seq<Edit>, origin: nat)
    requires TypedFrom(edits, origin)
    ensures SurvivingText(edits) == Typing(edits)
    ensures EndCursor(edits, origin) == |SurvivingText(edits)|
  {
    TypedSessionFits(edits, origin);
    OwnTextSurvives(edits, origin);
    ReplayTextIsApplyAll(edits, Back(origin), Place("", 0));
  }

  lemma {:induction false} TimesNothing(n: nat)
    ensures Times("", n) == ""
  {
    if n > 0 {
      TimesNothing(n - 1);
    }
  }

  lemma PiledBefore(a: string, rest: string, s: string, count: nat)
    ensures Piled(a, rest, s, |s|, count) == At(a + Times(s, count), rest)
  {
    TimesNothing(count);
    assert s[..|s|] == s && s[|s|..] == "" && "" + rest == rest;
  }

  /** Repeating a typed session inserts its text once for every count, at any cursor of
      any document, copy behind copy, and leaves the cursor behind the last one. */
  lemma TypedReplay(edits: seq<Edit>, origin: nat, count: nat, a: string, rest: string)
    requires TypedFrom(edits, origin)
    ensures Repeats(edits, origin, count, At(a, rest), At(a + Times(Typing(edits), count), rest))
  {
    TypedSessionFits(edits, origin);
    CursorBehindTyped(edits, origin);
    CountedReplay(edits, origin, count, a, rest, Typing(edits), |Typing(edits)|);
    PiledBefore(a, rest, Typing(edits), count);
  }
}
