/** Raw buffer edits at absolute offsets, their inverses, and the text that an
    edit sequence leaves behind (ovim-core/src/edit.rs). */
module Edits {
  import opened Basics
  import opened Lines

  datatype Edit = Insert(offset: nat, text: string) | Delete(offset: nat, text: string) {

    function Inverse(): Edit {
      match this
      case Insert(o, t) => Delete(o, t)
      case Delete(o, t) => Insert(o, t)
    }

    /** The text after this edit; offsets past the end are clamped to it. */
    function Apply(s: string): string {
      match this
      case Insert(o, t) => Splice(s, Min(o, |s|), Min(o, |s|), t)
      case Delete(o, t) => Splice(s, Min(o, |s|), Min(o + |t|, |s|), "")
    }

    /** The edit touches only positions that exist in a text of length `n`. */
    predicate Fits(n: nat) {
      End() <= n
    }

    /** End of the range of old text this edit replaces. */
    function End(): nat {
      match this case Insert(o, _) => o case Delete(o, t) => o + |t|
    }

    /** The text it puts there. */
    function Added(): string {
      match this case Insert(_, t) => t case Delete(_, _) => ""
    }

    /** What recording captures: the edit fits, and a deletion's text is the
        text it removes. */
    predicate RecordedOn(s: string) {
      Fits(|s|) && (Delete? ==> s[offset..offset + |text|] == text)
    }

    /** The text a buffer holds after this edit, or after refusing it. */
    function ApplyIf(accepted: bool, s: string): string {
      if accepted then Apply(s) else s
    }

    /** Applies the edit through the buffer's own entry points: an insertion
        goes by line and column, a deletion by character range. */
    method ApplyTo(buffer: Buffer)
      modifies buffer`text
      ensures buffer.text == ApplyIf(buffer.modifiable, old(buffer.text))
    {
      match this {
        case Insert(o, t) =>
          var pos := Min(o, |buffer.text|);
          var line := LineOf(buffer.text, pos);
          LineColRoundTrip(buffer.text, pos);
          var col := pos - LineStart(buffer.text, line);
          buffer.InsertTextAt(line, col, t);
        case Delete(o, t) =>
          buffer.DeleteCharRange(o, o + |t|);
      }
    }
  }

  /** The rope of a buffer, as a plain text, and whether it accepts edits. */
  class Buffer {
    var text: string
    var modifiable: bool

    constructor (content: string)
      ensures text == content && modifiable
    {
      text, modifiable := content, true;
    }

    method SetModifiable(on: bool)
      modifies this`modifiable
      ensures modifiable == on
    {
      modifiable := on;
    }

    /** `insert_text_at`: the column is clamped to the visible line; a buffer that
        is not modifiable refuses. */
    method InsertTextAt(line: nat, col: nat, inserted: string)
      modifies this`text
      ensures !modifiable || line >= RawLineCount(old(text)) ==> text == old(text)
      ensures modifiable && line < RawLineCount(old(text)) ==>
                var pos := LineStart(old(text), line) + Min(col, LineLen(old(text), line));
                pos <= |old(text)| && text == Splice(old(text), pos, pos, inserted)
    {
      if line < RawLineCount(text) {
        LineEndFits(text, line);
      }
      if inserted == "" {
        return;
      }
      if !modifiable {
        return;
      }
      if line >= RawLineCount(text) {
        return;
      }
      var pos := LineStart(text, line) + Min(col, LineLen(text, line));
      text := text[..pos] + inserted + text[pos..];
    }

    /** `delete_char_range`: both ends are clamped to the text; an empty or reversed
        range deletes nothing, and a buffer that is not modifiable refuses. */
    method DeleteCharRange(start: nat, end: nat)
      modifies this`text
      ensures !modifiable || start >= end ==> text == old(text)
      ensures modifiable && start <= end ==>
                text == Splice(old(text), Min(start, |old(text)|), Min(end, |old(text)|), "")
    {
      if !modifiable {
        return;
      }
      var from, to := Min(start, |text|), Min(end, |text|);
      if from >= to {
        return;
      }
      text := text[..from] + text[to..];
    }
  }

  // ----- edit sequences ----------------------------------------------------

  function ApplyAll(edits: seq<Edit>, s: string): string {
    if edits == [] then s else edits[|edits| - 1].Apply(ApplyAll(edits[..|edits| - 1], s))
  }

  /** Undo: the inverses, last edit first. */
  function UndoAll(edits: seq<Edit>, s: string): string {
    if edits == [] then s
    else UndoAll(edits[..|edits| - 1], edits[|edits| - 1].Inverse().Apply(s))
  }

  /** Each edit was recorded on the text the earlier ones produced. */
  predicate AllRecordedOn(edits: seq<Edit>, s: string) {
    edits == [] ||
    (AllRecordedOn(edits[..|edits| - 1], s) &&
     edits[|edits| - 1].RecordedOn(ApplyAll(edits[..|edits| - 1], s)))
  }

  /** The inverse takes a recorded edit back, and is itself recorded faithfully. */
  lemma InverseUndoes(e: Edit, s: string)
    requires e.RecordedOn(s)
    ensures e.Inverse().Apply(e.Apply(s)) == s
    ensures e.Inverse().RecordedOn(e.Apply(s))
  {
    var t := e.Apply(s);
    match e {
      case Insert(o, x) =>
        assert t == s[..o] + x + s[o..];
        assert t[o..o + |x|] == x;
        assert t[..o] + "" + t[o + |x|..] == s;
      case Delete(o, x) =>
        assert t == s[..o] + s[o + |x|..];
        assert t[..o] + x + t[o..] == s[..o] + s[o..o + |x|] + s[o + |x|..] == s;
    }
  }

  lemma {:induction false} UndoAllUndoes(edits: seq<Edit>, s: string)
    requires AllRecordedOn(edits, s)
    ensures UndoAll(edits, ApplyAll(edits, s)) == s
  {
    if edits != [] {
      var init := edits[..|edits| - 1];
      InverseUndoes(edits[|edits| - 1], ApplyAll(init, s));
      UndoAllUndoes(init, s);
    }
  }

  lemma {:induction false} ApplyAllConcat(a: seq<Edit>, b: seq<Edit>, s: string)
    ensures ApplyAll(a + b, s) == ApplyAll(b, ApplyAll(a, s))
    ensures AllRecordedOn(a + b, s) <==> AllRecordedOn(a, s) && AllRecordedOn(b, ApplyAll(a, s))
  {
    if b == [] {
      assert a + b == a;
    } else {
      var b' := b[..|b| - 1];
      ApplyAllConcat(a, b', s);
      assert (a + b)[..|a + b| - 1] == a + b';
    }
  }

  // ----- surviving_inserted_text -------------------------------------------

  /** Smallest offset of a non-empty edit sequence. */
  function Origin(edits: seq<Edit>): (o: nat)
    requires edits != []
    ensures forall k :: 0 <= k < |edits| ==> o <= edits[k].offset
    ensures exists k :: 0 <= k < |edits| && o == edits[k].offset
  {
    if |edits| == 1 then edits[0].offset
    else
      var m := Origin(edits[..|edits| - 1]);
      var last := edits[|edits| - 1].offset;
      assert edits[|edits| - 1].offset == last;
      assert forall k :: 0 <= k < |edits| - 1 ==> edits[k] == edits[..|edits| - 1][k];
      Min(m, last)
  }

  type Cell = Option<char>

  function Unknown(n: nat): seq<Cell> {
    seq(n, _ => None)
  }

  function Known(t: string): seq<Cell> {
    seq(|t|, i requires 0 <= i < |t| => Some(t[i]))
  }

  /** `Vec::resize(len.max(n), None)`. */
  function Pad(span: seq<Cell>, n: nat): (r: seq<Cell>)
    ensures |r| >= n && |r| >= |span|
  {
    if |span| >= n then span else span + Unknown(n - |span|)
  }

  function SpanStep(span: seq<Cell>, e: Edit, origin: nat): seq<Cell>
    requires origin <= e.offset
  {
    Splice(Pad(span, e.End() - origin), e.offset - origin, e.End() - origin, Known(e.Added()))
  }

  function SpanOf(edits: seq<Edit>, origin: nat): seq<Cell>
    requires forall k :: 0 <= k < |edits| ==> origin <= edits[k].offset
  {
    if edits == [] then []
    else
      assert edits[|edits| - 1].offset >= origin;
      SpanStep(SpanOf(edits[..|edits| - 1], origin), edits[|edits| - 1], origin)
  }

  /** The known characters, in order. */
  function Flatten(span: seq<Cell>): string {
    if span == [] then ""
    else
      var rest := Flatten(span[..|span| - 1]);
      match span[|span| - 1] case None => rest case Some(c) => rest + [c]
  }

  function SurvivingText(edits: seq<Edit>): string {
    if edits == [] then "" else Flatten(SpanOf(edits, Origin(edits)))
  }

  method SurvivingInsertedText(edits: seq<Edit>) returns (r: string)
    ensures r == SurvivingText(edits)
  {
    if edits == [] {
      return "";
    }
    var origin := SmallestOffset(edits);
    var span := EditedSpan(edits, origin);
    r := KnownText(span);
  }

  method SmallestOffset(edits: seq<Edit>) returns (origin: nat)
    requires edits != []
    ensures origin == Origin(edits)
  {
    origin := edits[0].offset;
    for i := 1 to |edits|
      invariant origin == Origin(edits[..i])
    {
      assert edits[..i + 1][..i] == edits[..i];
      origin := Min(origin, edits[i].offset);
    }
    assert edits[..|edits|] == edits;
  }

  method KnownText(span: seq<Cell>) returns (r: string)
    ensures r == Flatten(span)
  {
    r := "";
    for i := 0 to |span|
      invariant r == Flatten(span[..i])
    {
      assert span[..i + 1][..i] == span[..i];
      if span[i].Some? {
        r := r + [span[i].value];
      }
    }
    assert span[..|span|] == span;
  }

  method EditedSpan(edits: seq<Edit>, origin: nat) returns (span: seq<Cell>)
    requires forall k :: 0 <= k < |edits| ==> origin <= edits[k].offset
    ensures span == SpanOf(edits, origin)
  {
    span := [];
    for i := 0 to |edits|
      invariant span == SpanOf(edits[..i], origin)
    {
      SpanOfNext(edits, i, origin);
      span := EditSpan(span, edits[i], origin);
    }
    assert edits[..|edits|] == edits;
  }

  method EditSpan(span: seq<Cell>, e: Edit, origin: nat) returns (r: seq<Cell>)
    requires origin <= e.offset
    ensures r == SpanStep(span, e, origin)
  {
    var start := e.offset - origin;
    match e {
      case Insert(_, t) =>
        r := Pad(span, start);
        r := r[..start] + Known(t) + r[start..];
      case Delete(_, t) =>
        r := Pad(span, start + |t|);
        r := r[..start] + [] + r[start + |t|..];
    }
  }

  lemma SpanOfNext(edits: seq<Edit>, i: nat, origin: nat)
    requires i < |edits|
    requires forall k :: 0 <= k < |edits| ==> origin <= edits[k].offset
    ensures SpanOf(edits[..i + 1], origin) == SpanStep(SpanOf(edits[..i], origin), edits[i], origin)
  {
    assert edits[..i + 1][..i] == edits[..i];
  }

  // The reference: replay on a document whose characters say where they came
  // from.

  datatype Tagged = Tagged(ch: char, inserted: bool)

  function Tag(t: string, inserted: bool): seq<Tagged> {
    seq(|t|, i requires 0 <= i < |t| => Tagged(t[i], inserted))
  }

  function Chars(doc: seq<Tagged>): string {
    seq(|doc|, i requires 0 <= i < |doc| => doc[i].ch)
  }

  /** The characters inserted by some edit, in document order. */
  function InsertedChars(doc: seq<Tagged>): string {
    if doc == [] then ""
    else
      var rest := InsertedChars(doc[..|doc| - 1]);
      if doc[|doc| - 1].inserted then rest + [doc[|doc| - 1].ch] else rest
  }

  predicate AllFit(edits: seq<Edit>, n: nat) {
    edits == [] ||
    (AllFit(edits[..|edits| - 1], n) &&
     edits[|edits| - 1].Fits(LengthAfter(edits[..|edits| - 1], n)))
  }

  function LengthAfter(edits: seq<Edit>, n: nat): nat {
    if edits == [] then n
    else
      var m := LengthAfter(edits[..|edits| - 1], n);
      var e := edits[|edits| - 1];
      match e
      case Insert(_, t) => m + |t|
      case Delete(_, t) => if |t| <= m then m - |t| else 0
  }

  function TaggedReplay(edits: seq<Edit>, doc: string): (r: seq<Tagged>)
    requires AllFit(edits, |doc|)
    ensures |r| == LengthAfter(edits, |doc|)
  {
    if edits == [] then Tag(doc, false)
    else
      var before := TaggedReplay(edits[..|edits| - 1], doc);
      var e := edits[|edits| - 1];
      Splice(before, e.offset, e.End(), Tag(e.Added(), true))
  }

  /** Dropping the tags gives the ordinary replay. */
  lemma {:induction false} TaggedReplayIsReplay(edits: seq<Edit>, doc: string)
    requires AllFit(edits, |doc|)
    ensures Chars(TaggedReplay(edits, doc)) == ApplyAll(edits, doc)
  {
    if edits != [] {
      var init := edits[..|edits| - 1];
      TaggedReplayIsReplay(init, doc);
      var e := edits[|edits| - 1];
      ApplyIsSplice(e, ApplyAll(init, doc));
      CharsSplice(TaggedReplay(init, doc), e.offset, e.End(), e.Added());
    } else {
      assert Chars(Tag(doc, false)) == doc;
    }
  }

  /** Where the edit fits, nothing is clamped. */
  lemma ApplyIsSplice(e: Edit, s: string)
    requires e.Fits(|s|)
    ensures e.Apply(s) == Splice(s, e.offset, e.End(), e.Added())
  {
  }

  lemma CharsSplice(doc: seq<Tagged>, from: nat, to: nat, added: string)
    requires from <= to <= |doc|
    ensures Chars(Splice(doc, from, to, Tag(added, true))) == Splice(Chars(doc), from, to, added)
  {
  }

  function Cells(doc: seq<Tagged>): seq<Cell> {
    seq(|doc|, i requires 0 <= i < |doc| => if doc[i].inserted then Some(doc[i].ch) else None)
  }

  lemma {:induction false} FlattenCells(doc: seq<Tagged>)
    ensures Flatten(Cells(doc)) == InsertedChars(doc)
  {
    if doc != [] {
      FlattenCells(doc[..|doc| - 1]);
      assert Cells(doc)[..|doc| - 1] == Cells(doc[..|doc| - 1]);
    }
  }

  lemma {:induction false} FlattenConcat(a: seq<Cell>, b: seq<Cell>)
    ensures Flatten(a + b) == Flatten(a) + Flatten(b)
  {
    if b == [] {
      assert a + b == a;
    } else {
      FlattenConcat(a, b[..|b| - 1]);
      assert (a + b)[..|a + b| - 1] == a + b[..|b| - 1];
    }
  }

  lemma {:induction false} FlattenUnknown(n: nat)
    ensures Flatten(Unknown(n)) == ""
  {
    if n > 0 {
      FlattenUnknown(n - 1);
      assert Unknown(n)[..n - 1] == Unknown(n - 1);
    }
  }

  /** `span` is all of `cells` but the first `origin` and the last `rest`
      cells, which nothing has touched. */
  ghost predicate Around(cells: seq<Cell>, span: seq<Cell>, origin: nat, rest: nat) {
    cells == Unknown(origin) + span + Unknown(rest)
  }

  /** The rebased span is the tagged document between two untouched parts. */
  lemma {:induction false} SpanIsTheTouchedPart(edits: seq<Edit>, origin: nat, doc: string) returns (rest: nat)
    requires AllFit(edits, |doc|) && origin <= |doc|
    requires forall k :: 0 <= k < |edits| ==> origin <= edits[k].offset
    ensures Around(Cells(TaggedReplay(edits, doc)), SpanOf(edits, origin), origin, rest)
  {
    if edits == [] {
      rest := |doc| - origin;
      UntouchedCells(doc, origin);
    } else {
      var init, e := edits[..|edits| - 1], edits[|edits| - 1];
      assert e.offset >= origin;
      var r := SpanIsTheTouchedPart(init, origin, doc);
      CellsOfStep(edits, doc);
      rest := SpanStepTracks(SpanOf(init, origin), Cells(TaggedReplay(init, doc)), e, origin, r);
    }
  }

  lemma UntouchedCells(doc: string, origin: nat)
    requires origin <= |doc|
    ensures Cells(Tag(doc, false)) == Unknown(origin) + [] + Unknown(|doc| - origin)
  {
  }

  lemma CellsOfStep(edits: seq<Edit>, doc: string)
    requires edits != [] && AllFit(edits, |doc|)
    ensures var init, e := edits[..|edits| - 1], edits[|edits| - 1];
            e.Fits(|Cells(TaggedReplay(init, doc))|) &&
            Cells(TaggedReplay(edits, doc))
            == Splice(Cells(TaggedReplay(init, doc)), e.offset, e.End(), Known(e.Added()))
  {
    var init, e := edits[..|edits| - 1], edits[|edits| - 1];
    CellsSplice(TaggedReplay(init, doc), e.offset, e.End(), Tag(e.Added(), true));
    assert Cells(Tag(e.Added(), true)) == Known(e.Added());
  }

  lemma SpanStepTracks(span: seq<Cell>, cells: seq<Cell>, e: Edit, origin: nat, r: nat) returns (rest: nat)
    requires origin <= e.offset && e.Fits(|cells|)
    requires Around(cells, span, origin, r)
    ensures Around(Splice(cells, e.offset, e.End(), Known(e.Added())), SpanStep(span, e, origin), origin, rest)
  {
    var from, to := e.offset - origin, e.End() - origin;
    PadBorrows(span, to, origin, r);
    var padded := Pad(span, to);
    rest := r - (|padded| - |span|);
    SpliceAround(cells, padded, from, to, Known(e.Added()), origin, rest);
  }

  lemma SpliceAround(cells: seq<Cell>, span: seq<Cell>, from: nat, to: nat, mid: seq<Cell>, origin: nat, rest: nat)
    requires from <= to <= |span|
    requires Around(cells, span, origin, rest)
    ensures Around(Splice(cells, origin + from, origin + to, mid), Splice(span, from, to, mid), origin, rest)
  {
    SpliceMiddle(Unknown(origin), span, Unknown(rest), from, to, mid);
  }

  /** Padding the span only names more of the untouched tail. */
  lemma PadBorrows(span: seq<Cell>, n: nat, origin: nat, r: nat)
    requires n <= |span| + r
    ensures Unknown(origin) + span + Unknown(r)
            == Unknown(origin) + Pad(span, n) + Unknown(r - (|Pad(span, n)| - |span|))
  {
  }

  lemma CellsSplice(doc: seq<Tagged>, from: nat, to: nat, mid: seq<Tagged>)
    requires from <= to <= |doc|
    ensures Cells(Splice(doc, from, to, mid)) == Splice(Cells(doc), from, to, Cells(mid))
  {
  }

  lemma SpliceMiddle<T>(u: seq<T>, p: seq<T>, r: seq<T>, from: nat, to: nat, mid: seq<T>)
    requires from <= to <= |p|
    ensures Splice(u + p + r, |u| + from, |u| + to, mid) == u + Splice(p, from, to, mid) + r
  {
  }

  /** What `surviving_inserted_text` promises: on whatever document the edits
      fit, it is the inserted and not later deleted text, in document order. */
  lemma SurvivingTextIsInsertedText(edits: seq<Edit>, doc: string)
    requires AllFit(edits, |doc|)
    ensures SurvivingText(edits) == InsertedChars(TaggedReplay(edits, doc))
  {
    if edits == [] {
      FlattenCells(Tag(doc, false));
      assert Cells(Tag(doc, false)) == Unknown(|doc|);
      FlattenUnknown(|doc|);
    } else {
      OriginFits(edits, |doc|);
      var origin := Origin(edits);
      var rest := SpanIsTheTouchedPart(edits, origin, doc);
      FlattenCells(TaggedReplay(edits, doc));
      FlattenConcat(Unknown(origin) + SpanOf(edits, origin), Unknown(rest));
      FlattenConcat(Unknown(origin), SpanOf(edits, origin));
      FlattenUnknown(origin);
      FlattenUnknown(rest);
    }
  }

  /** The smallest offset lies in the original document. */
  lemma {:induction false} OriginFits(edits: seq<Edit>, n: nat)
    requires edits != [] && AllFit(edits, n)
    ensures Origin(edits) <= n
  {
    if |edits| == 1 {
      assert edits[..0] == [];
    } else {
      OriginFits(edits[..|edits| - 1], n);
    }
  }

  lemma {:induction false} RecordedFits(edits: seq<Edit>, s: string)
    requires AllRecordedOn(edits, s)
    ensures AllFit(edits, |s|) && LengthAfter(edits, |s|) == |ApplyAll(edits, s)|
  {
    if edits != [] {
      RecordedFits(edits[..|edits| - 1], s);
    }
  }
}
