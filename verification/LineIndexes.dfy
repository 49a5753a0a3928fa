/** The sparse index of one line (ovim-core/src/text_index.rs): grapheme
    checkpoints and display specials, built once and then updated by edits. */
module LineIndexes {
  import opened Basics
  import opened Search
  import opened Display
  import opened Segments
  import opened DisplaySpecials

  const STRIDE: nat := 256

  datatype Checkpoint = Checkpoint(charCol: nat, grapheme: nat)

  const ORIGIN: Checkpoint := Checkpoint(0, 0)

  datatype Layout = Layout(text: string, ascii: bool, checkpoints: seq<Checkpoint>, specials: seq<Special>,
                           graphemes: nat)

  predicate Exact(cp: Checkpoint, cs: seq<Cluster>) {
    cp.grapheme <= |cs| && cp.charCol == CharStart(cs, cp.grapheme)
  }

  predicate Placed(cps: seq<Checkpoint>, cs: seq<Cluster>) {
    |cps| >= 1 && cps[0] == ORIGIN &&
    (forall i :: 0 <= i < |cps| ==> Exact(cps[i], cs)) &&
    (forall i, j :: 0 <= i < j < |cps| ==> cps[i].grapheme < cps[j].grapheme)
  }

  /** No stretch between checkpoints is longer than the stride. */
  predicate Spaced(cps: seq<Checkpoint>) {
    forall i, j :: 0 <= i && j == i + 1 < |cps| ==> cps[j].grapheme - cps[i].grapheme <= STRIDE
  }

  predicate Reaches(cps: seq<Checkpoint>, graphemes: nat) {
    cps != [] && cps[|cps| - 1].grapheme <= graphemes <= cps[|cps| - 1].grapheme + STRIDE
  }

  /** The index describes exactly this line. */
  ghost predicate Faithful(u: Unicode, l: Layout, text: string) {
    var cs := Clusters(u, text);
    l.text == text && IsLine(text) && l.ascii == AllAscii(text) && l.graphemes == |cs| &&
    l.specials == SpecialsIn(cs, 0, |cs|) && Placed(l.checkpoints, cs) &&
    (!l.ascii ==> Spaced(l.checkpoints) && Reaches(l.checkpoints, |cs|))
  }

  // ----- ASCII lines: specials only --------------------------------------------------------

  ghost predicate AsciiCluster(u: Unicode, c: char, i: nat, cs: seq<Cluster>) {
    i < |cs| && CharStart(cs, i) == i && cs[i] == ClusterOf(u, [c])
  }

  ghost predicate AsciiAt(u: Unicode, chars: string, base: nat, cs: seq<Cluster>) {
    base + |chars| <= |cs| && forall k: nat :: k < |chars| ==> AsciiCluster(u, chars[k], base + k, cs)
  }

  method AsciiSpecials(u: Unicode, chars: string, base: nat, ghost cs: seq<Cluster>) returns (specials: seq<Special>)
    requires Lawful(u) && AllAscii(chars) && IsLine(chars) && AsciiAt(u, chars, base, cs)
    ensures specials == SpecialsIn(cs, base, base + |chars|)
  {
    specials := [];
    for i := 0 to |chars|
      invariant specials == SpecialsIn(cs, base, base + i)
    {
      var c := chars[i];
      AsciiSpecialTest(u, c);
      assert c in chars;
      assert AsciiCluster(u, c, base + i, cs);
      if IsAsciiControl(c) || GraphemeWidth(u, [c]) != 1 {
        var width := if c != '\t' then Some(GraphemeWidth(u, [c])) else None;
        specials := specials + [Special(base + i, base + i + 1, width)];
      }
    }
  }

  /** The ASCII test and the cluster test agree, away from line breaks. */
  lemma AsciiSpecialTest(u: Unicode, c: char)
    requires Lawful(u) && Ascii(c)
    ensures c != '\n' ==> (IsAsciiControl(c) || GraphemeWidth(u, [c]) != 1 <==> IsSpecial(ClusterOf(u, [c])))
    ensures ClusterOf(u, [c]).tab <==> c == '\t'
  {
  }

  lemma AsciiAtSlice(u: Unicode, text: string, from: nat, to: nat)
    requires Lawful(u) && AllAscii(text) && IsLine(text) && from <= to <= |text|
    ensures AsciiAt(u, text[from..to], from, Clusters(u, text))
  {
    AsciiLength(u, text);
    var chars, cs := text[from..to], Clusters(u, text);
    forall k: nat | k < |chars| ensures AsciiCluster(u, chars[k], from + k, cs) {
      AsciiClusters(u, text, from + k);
      assert chars[k] == text[from + k];
    }
  }

  // ----- building the suffix ------------------------------------------------------------------

  /** The cluster after `position`. */
  method NextGrapheme(u: Unicode, text: string, ascii: bool, position: Checkpoint) returns (g: string, end: Checkpoint)
    requires Lawful(u) && IsLine(text) && (ascii ==> AllAscii(text))
    requires Exact(position, Clusters(u, text)) && position.charCol < |text|
    ensures position.grapheme < |Clusters(u, text)|
    ensures Exact(end, Clusters(u, text)) && end.grapheme == position.grapheme + 1
    ensures position.charCol < end.charCol <= |text| && g == text[position.charCol..end.charCol]
    ensures Clusters(u, text)[position.grapheme] == ClusterOf(u, g)
  {
    ClusterAt(u, text, position.grapheme);
    var next;
    if ascii {
      AsciiBoundary(u, text, position.charCol);
      next := position.charCol + 1;
    } else {
      next := NextBoundary(u, text, position.charCol);
    }
    g := text[position.charCol..next];
    end := Checkpoint(next, position.grapheme + 1);
  }

  /** `position` is in the stride block of the last checkpoint. */
  predicate SameBlock(cps: seq<Checkpoint>, grapheme: nat) {
    cps != [] && cps[|cps| - 1].grapheme <= grapheme && cps[|cps| - 1].grapheme / STRIDE == grapheme / STRIDE
  }

  method BuildSuffix(u: Unicode, text: string, ascii: bool, start: Checkpoint,
                     checkpoints0: seq<Checkpoint>, specials0: seq<Special>) returns (l: Layout)
    requires Lawful(u) && IsLine(text) && (ascii <==> AllAscii(text))
    requires Placed(checkpoints0, Clusters(u, text)) && checkpoints0[|checkpoints0| - 1] == start
    requires Spaced(checkpoints0)
    requires specials0 == SpecialsIn(Clusters(u, text), 0, start.grapheme)
    ensures Faithful(u, l, text)
  {
    var checkpoints, specials, position := checkpoints0, specials0, start;
    ghost var cs := Clusters(u, text);
    ClusterAt(u, text, position.grapheme);
    while position.charCol < |text|
      invariant Exact(position, cs) && position.charCol <= |text|
      invariant specials == SpecialsIn(cs, 0, position.grapheme)
      invariant Placed(checkpoints, cs) && Spaced(checkpoints) && SameBlock(checkpoints, position.grapheme)
      decreases |text| - position.charCol
    {
      var g, end := NextGrapheme(u, text, ascii, position);
      var chars := end.charCol - position.charCol;
      var width := GraphemeWidth(u, g);
      if g == "\t" || width != chars {
        specials := specials + [Special(position.charCol, end.charCol, if g != "\t" then Some(width) else None)];
      }
      if end.grapheme % STRIDE == 0 {
        PlacedPush(checkpoints, end, cs);
        checkpoints := checkpoints + [end];
      }
      position := end;
    }
    AtEnd(u, text, position);
    return Layout(text, ascii, checkpoints, specials, position.grapheme);
  }

  lemma AtEnd(u: Unicode, text: string, position: Checkpoint)
    requires Exact(position, Clusters(u, text)) && position.charCol >= |text|
    ensures position.grapheme == |Clusters(u, text)|
  {
    ClusterAt(u, text, position.grapheme);
  }

  lemma PlacedPush(cps: seq<Checkpoint>, end: Checkpoint, cs: seq<Cluster>)
    requires Placed(cps, cs) && Spaced(cps) && Exact(end, cs) && cps[|cps| - 1].grapheme < end.grapheme
    requires end.grapheme - cps[|cps| - 1].grapheme <= STRIDE
    ensures Placed(cps + [end], cs) && Spaced(cps + [end])
  {
  }

  /** `LineIndex::new`. */
  method NewLayout(u: Unicode, text: string) returns (l: Layout)
    requires Lawful(u) && IsLine(text)
    ensures Faithful(u, l, text)
  {
    var ascii := AllAscii(text);
    if ascii {
      AsciiAtSlice(u, text, 0, |text|);
      AsciiLength(u, text);
      assert text[0..|text|] == text;
      var specials := AsciiSpecials(u, text, 0, Clusters(u, text));
      l := Layout(text, ascii, [ORIGIN], specials, |text|);
    } else {
      l := BuildSuffix(u, text, ascii, ORIGIN, [ORIGIN], []);
    }
  }

  // ----- editing an ASCII line ---------------------------------------------------------------------

  /** Specials right of an edit move with the text. */
  function Shifted(s: Special, removed: nat, inserted: nat): Special
    requires removed <= s.start && removed <= s.end
  {
    Special(s.start - removed + inserted, s.end - removed + inserted, s.width)
  }

  predicate Beyond(specials: seq<Special>, at: nat) {
    forall k :: 0 <= k < |specials| ==> at <= specials[k].start && at <= specials[k].end
  }

  function ShiftAll(specials: seq<Special>, removed: nat, inserted: nat): seq<Special>
    requires Beyond(specials, removed)
  {
    if specials == [] then []
    else
      ShiftAll(specials[..|specials| - 1], removed, inserted) + [Shifted(specials[|specials| - 1], removed, inserted)]
  }

  function Before(at: nat): Special -> bool {
    (s: Special) => s.end <= at
  }

  function From(at: nat): Special -> bool {
    (s: Special) => s.start >= at
  }

  lemma SpecialsBefore(cs: seq<Cluster>, k: nat)
    requires Sound(cs) && k <= |cs|
    ensures Filter(SpecialsIn(cs, 0, |cs|), Before(CharStart(cs, k))) == SpecialsIn(cs, 0, k)
  {
    SpecialsSplit(cs, 0, k, |cs|);
    SpecialsBounds(cs, 0, k);
    SpecialsBounds(cs, k, |cs|);
    var p := Before(CharStart(cs, k));
    FilterConcat(SpecialsIn(cs, 0, k), SpecialsIn(cs, k, |cs|), p);
    FilterAll(SpecialsIn(cs, 0, k), p);
    FilterNone(SpecialsIn(cs, k, |cs|), p);
  }

  lemma SpecialsFrom(cs: seq<Cluster>, k: nat)
    requires Sound(cs) && k <= |cs|
    ensures Filter(SpecialsIn(cs, 0, |cs|), From(CharStart(cs, k))) == SpecialsIn(cs, k, |cs|)
  {
    SpecialsSplit(cs, 0, k, |cs|);
    SpecialsBounds(cs, 0, k);
    SpecialsBounds(cs, k, |cs|);
    var p := From(CharStart(cs, k));
    FilterConcat(SpecialsIn(cs, 0, k), SpecialsIn(cs, k, |cs|), p);
    FilterNone(SpecialsIn(cs, 0, k), p);
    FilterAll(SpecialsIn(cs, k, |cs|), p);
  }

  /** `ds` holds the clusters of `cs` from `at` on, `removed` fewer and `inserted`
      more places to the right, one character each. */
  ghost predicate Moved(cs: seq<Cluster>, ds: seq<Cluster>, at: nat, removed: nat, inserted: nat) {
    removed <= at <= |cs| && |ds| == |cs| - removed + inserted &&
    forall k :: at <= k < |cs| ==>
      CharStart(cs, k) == k && CharStart(ds, k - removed + inserted) == k - removed + inserted &&
      cs[k] == ds[k - removed + inserted] && cs[k].chars == 1
  }

  lemma BeyondEdit(cs: seq<Cluster>, at: nat, removed: nat, to: nat)
    requires Sound(cs) && at <= to <= |cs| && removed <= CharStart(cs, at)
    ensures Beyond(SpecialsIn(cs, at, to), removed)
  {
    SpecialsBounds(cs, at, to);
    forall k | 0 <= k < |SpecialsIn(cs, at, to)|
      ensures CharStart(cs, at) <= SpecialsIn(cs, at, to)[k].start < SpecialsIn(cs, at, to)[k].end
    {
      assert SpecialsIn(cs, at, to)[k] in SpecialsIn(cs, at, to);
    }
  }

  lemma ShiftPush(specials: seq<Special>, x: Special, removed: nat, inserted: nat)
    requires Beyond(specials + [x], removed)
    ensures Beyond(specials, removed) && removed <= x.start && removed <= x.end
    ensures ShiftAll(specials + [x], removed, inserted)
            == ShiftAll(specials, removed, inserted) + [Shifted(x, removed, inserted)]
  {
    assert forall k :: 0 <= k < |specials| ==> (specials + [x])[k] == specials[k];
    assert (specials + [x])[|specials|] == x;
    assert (specials + [x])[..|specials|] == specials;
  }

  lemma {:induction false} MovedSpecials(cs: seq<Cluster>, ds: seq<Cluster>, at: nat, removed: nat, inserted: nat,
                                         to: nat)
    requires Moved(cs, ds, at, removed, inserted) && at <= to <= |cs|
    requires Beyond(SpecialsIn(cs, at, to), removed)
    ensures SpecialsIn(ds, at - removed + inserted, to - removed + inserted)
            == ShiftAll(SpecialsIn(cs, at, to), removed, inserted)
  {
    if at < to {
      MovedOne(cs, ds, at, removed, inserted, to - 1);
      var before := SpecialsIn(cs, at, to - 1);
      if IsSpecial(cs[to - 1]) {
        ShiftPush(before, SpecialAt(cs, to - 1), removed, inserted);
      } else {
        assert before + [] == before;
      }
      MovedSpecials(cs, ds, at, removed, inserted, to - 1);
    }
  }

  lemma MovedOne(cs: seq<Cluster>, ds: seq<Cluster>, at: nat, removed: nat, inserted: nat, k: nat)
    requires Moved(cs, ds, at, removed, inserted) && at <= k < |cs|
    ensures removed <= SpecialAt(cs, k).start && removed <= SpecialAt(cs, k).end
    ensures cs[k] == ds[k - removed + inserted]
    ensures SpecialAt(ds, k - removed + inserted) == Shifted(SpecialAt(cs, k), removed, inserted)
  {
  }

  lemma EditMoves(u: Unicode, was: string, start: nat, end: nat, inserted: string)
    requires Lawful(u) && AllAscii(was) && IsLine(was) && start <= end <= |was|
    requires AllAscii(Splice(was, start, end, inserted)) && IsLine(Splice(was, start, end, inserted))
    ensures Moved(Clusters(u, was), Clusters(u, Splice(was, start, end, inserted)), end, end - start, |inserted|)
  {
    var text := Splice(was, start, end, inserted);
    AsciiLength(u, was);
    AsciiLength(u, text);
    forall k: nat | end <= k < |was|
      ensures var j := k - (end - start) + |inserted|;
              CharStart(Clusters(u, was), k) == k && CharStart(Clusters(u, text), j) == j &&
              Clusters(u, was)[k] == Clusters(u, text)[j] && Clusters(u, was)[k].chars == 1
    {
      var j := k - (end - start) + |inserted|;
      AsciiClusters(u, was, k);
      AsciiClusters(u, text, j);
      assert was[k] == text[j];
    }
  }

  /** What an ASCII edit keeps to the left of it. */
  lemma EditKeepsLeft(u: Unicode, was: string, start: nat, end: nat, inserted: string)
    requires Lawful(u) && AllAscii(was) && IsLine(was) && start <= end <= |was|
    requires AllAscii(Splice(was, start, end, inserted)) && IsLine(Splice(was, start, end, inserted))
    ensures |Clusters(u, was)| == |was| && CharStart(Clusters(u, was), start) == start &&
            CharStart(Clusters(u, was), end) == end
    ensures |Clusters(u, Splice(was, start, end, inserted))| == |Splice(was, start, end, inserted)|
    ensures SpecialsIn(Clusters(u, was), 0, start)
            == SpecialsIn(Clusters(u, Splice(was, start, end, inserted)), 0, start)
  {
    var text := Splice(was, start, end, inserted);
    AsciiLength(u, was);
    AsciiLength(u, text);
    AsciiClusters(u, was, start);
    AsciiClusters(u, was, end);
    forall k: nat | k < start ensures Clusters(u, was)[k] == Clusters(u, text)[k] {
      AsciiClusters(u, was, k);
      AsciiClusters(u, text, k);
      assert was[k] == text[k];
    }
    SharedSpecials(Clusters(u, was), Clusters(u, text), start);
  }

  method InsertedSpecials(u: Unicode, text: string, start: nat, inserted: string) returns (specials: seq<Special>)
    requires Lawful(u) && AllAscii(text) && IsLine(text)
    requires start + |inserted| <= |text| && text[start..start + |inserted|] == inserted
    ensures start + |inserted| <= |Clusters(u, text)|
    ensures specials == SpecialsIn(Clusters(u, text), start, start + |inserted|)
  {
    AsciiAtSlice(u, text, start, start + |inserted|);
    assert forall k :: 0 <= k < |inserted| ==> inserted[k] == text[start + k];
    assert forall c :: c in inserted ==> c in text;
    specials := AsciiSpecials(u, inserted, start, Clusters(u, text));
  }

  /** What an ASCII edit keeps to the right of it, moved with the text. */
  lemma RightSpecials(u: Unicode, was: string, start: nat, end: nat, inserted: string)
    requires Lawful(u) && AllAscii(was) && IsLine(was) && start <= end <= |was|
    requires AllAscii(Splice(was, start, end, inserted)) && IsLine(Splice(was, start, end, inserted))
    ensures MovedToEnd(Clusters(u, was), Clusters(u, Splice(was, start, end, inserted)), end, end - start, |inserted|)
  {
    AsciiLength(u, was);
    AsciiClusters(u, was, end);
    BeyondEdit(Clusters(u, was), end, end - start, |was|);
    EditMoves(u, was, start, end, inserted);
    MovedReachesEnd(Clusters(u, was), Clusters(u, Splice(was, start, end, inserted)), end, end - start, |inserted|);
  }

  /** The specials of `ds` beyond the edit are those of `cs`, moved. */
  ghost predicate MovedToEnd(cs: seq<Cluster>, ds: seq<Cluster>, at: nat, removed: nat, inserted: nat) {
    removed <= at <= |cs| && at - removed + inserted <= |ds| && Beyond(SpecialsIn(cs, at, |cs|), removed) &&
    ShiftAll(SpecialsIn(cs, at, |cs|), removed, inserted) == SpecialsIn(ds, at - removed + inserted, |ds|)
  }

  lemma MovedReachesEnd(cs: seq<Cluster>, ds: seq<Cluster>, at: nat, removed: nat, inserted: nat)
    requires Moved(cs, ds, at, removed, inserted) && Beyond(SpecialsIn(cs, at, |cs|), removed)
    ensures MovedToEnd(cs, ds, at, removed, inserted)
  {
    MovedSpecials(cs, ds, at, removed, inserted, |cs|);
  }

  lemma AsciiFaithful(u: Unicode, text: string, left: nat, mid: nat)
    requires Lawful(u) && AllAscii(text) && IsLine(text) && left <= mid <= |Clusters(u, text)|
    ensures var ds := Clusters(u, text);
            var specials := SpecialsIn(ds, 0, left) + SpecialsIn(ds, left, mid) + SpecialsIn(ds, mid, |ds|);
            Faithful(u, Layout(text, true, [ORIGIN], specials, |text|), text)
  {
    var ds := Clusters(u, text);
    AsciiLength(u, text);
    SpecialsSplit(ds, 0, left, mid);
    SpecialsSplit(ds, 0, mid, |ds|);
  }

  lemma LeftOfEdit(u: Unicode, l: Layout, start: nat, end: nat, inserted: string)
    requires Lawful(u) && Faithful(u, l, l.text) && l.ascii && start <= end <= |l.text|
    requires AllAscii(Splice(l.text, start, end, inserted)) && IsLine(Splice(l.text, start, end, inserted))
    ensures var ds := Clusters(u, Splice(l.text, start, end, inserted));
            start <= |ds| && Filter(l.specials, Before(start)) == SpecialsIn(ds, 0, start)
  {
    EditKeepsLeft(u, l.text, start, end, inserted);
    SpecialsBefore(Clusters(u, l.text), start);
  }

  lemma RightOfEdit(u: Unicode, l: Layout, start: nat, end: nat, inserted: string)
    requires Lawful(u) && Faithful(u, l, l.text) && l.ascii && start <= end <= |l.text|
    requires AllAscii(Splice(l.text, start, end, inserted)) && IsLine(Splice(l.text, start, end, inserted))
    ensures var ds, right := Clusters(u, Splice(l.text, start, end, inserted)), Filter(l.specials, From(end));
            start + |inserted| <= |ds| && Beyond(right, end - start) &&
            ShiftAll(right, end - start, |inserted|) == SpecialsIn(ds, start + |inserted|, |ds|)
  {
    EditKeepsLeft(u, l.text, start, end, inserted);
    SpecialsFrom(Clusters(u, l.text), end);
    RightSpecials(u, l.text, start, end, inserted);
  }

  method EditedAscii(u: Unicode, l: Layout, start: nat, end: nat, inserted: string) returns (r: Layout)
    requires Lawful(u) && Faithful(u, l, l.text) && l.ascii && start <= end <= |l.text|
    requires AllAscii(Splice(l.text, start, end, inserted)) && IsLine(Splice(l.text, start, end, inserted))
    ensures Faithful(u, r, Splice(l.text, start, end, inserted))
  {
    var text := Splice(l.text, start, end, inserted);
    LeftOfEdit(u, l, start, end, inserted);
    RightOfEdit(u, l, start, end, inserted);
    var left := Filter(l.specials, Before(start));
    var middle := InsertedSpecials(u, text, start, inserted);
    var right := ShiftAll(Filter(l.specials, From(end)), end - start, |inserted|);
    AsciiFaithful(u, text, start, start + |inserted|);
    r := Layout(text, true, [ORIGIN], left + middle + right, |text|);
  }

  // ----- editing any other line ----------------------------------------------------------------------

  /** Explicit checkpoints for a prefix that used to need none. */
  function Strides(n: nat): (cps: seq<Checkpoint>)
    ensures forall i :: 0 <= i < |cps| ==> cps[i] == Checkpoint(STRIDE * i, STRIDE * i) && STRIDE * i < n
    ensures STRIDE * |cps| >= n
  {
    seq((n + STRIDE - 1) / STRIDE, i requires 0 <= i < (n + STRIDE - 1) / STRIDE => Checkpoint(STRIDE * i, STRIDE * i))
  }

  function CharBelow(col: nat): Checkpoint -> bool {
    (cp: Checkpoint) => cp.charCol < col
  }

  /** Where resegmentation restarts: before the changed cluster, since an inserted
      mark can merge with its predecessor. */
  function Restart(l: Layout, at: nat): Checkpoint
    requires l.checkpoints != []
  {
    if l.ascii then
      var col := if at > 0 then at - 1 else 0;
      Checkpoint(col, col)
    else
      var pos := PartitionPoint(l.checkpoints, CharBelow(at));
      l.checkpoints[if pos > 0 then pos - 1 else 0]
  }

  function KeptCheckpoints(l: Layout, start: Checkpoint): seq<Checkpoint> {
    if l.ascii then Strides(start.charCol)
    else l.checkpoints[..PartitionPoint(l.checkpoints, CharBelow(start.charCol))]
  }

  lemma CheckpointsAscend(cps: seq<Checkpoint>, cs: seq<Cluster>, i: nat, j: nat)
    requires Placed(cps, cs) && Sound(cs) && i < j < |cps|
    ensures cps[i].charCol < cps[j].charCol
  {
    CharStartGrows(cs, cps[i].grapheme, cps[j].grapheme);
  }

  lemma PartitionAt(cps: seq<Checkpoint>, cs: seq<Cluster>, i: nat)
    requires Placed(cps, cs) && Sound(cs) && i < |cps|
    ensures PartitionPoint(cps, CharBelow(cps[i].charCol)) == i
  {
    var a, b := cps[..i], cps[i..];
    forall cp | cp in a ensures cp.charCol < cps[i].charCol {
      var k :| 0 <= k < i && a[k] == cp;
      CheckpointsAscend(cps, cs, k, i);
    }
    PartitionIs(a, b, CharBelow(cps[i].charCol));
    assert a + b == cps;
  }

  /** The restart point is a boundary strictly before the edit (or the origin). */
  lemma RestartIsBoundary(u: Unicode, l: Layout, at: nat)
    requires Lawful(u) && Faithful(u, l, l.text) && at <= |l.text|
    ensures Exact(Restart(l, at), Clusters(u, l.text))
    ensures Restart(l, at) == ORIGIN || Restart(l, at).charCol < at
  {
    if l.ascii {
      AsciiClusters(u, l.text, if at > 0 then at - 1 else 0);
    } else {
      assert !CharBelow(0)(ORIGIN);
    }
  }

  lemma ExactInBoth(u: Unicode, was: string, text: string, shared: nat, cp: Checkpoint)
    requires shared <= |was| && shared <= |text| && was[..shared] == text[..shared]
    requires Exact(cp, Clusters(u, was)) && (cp == ORIGIN || cp.charCol < shared)
    ensures Exact(cp, Clusters(u, text))
    ensures SpecialsIn(Clusters(u, was), 0, cp.grapheme) == SpecialsIn(Clusters(u, text), 0, cp.grapheme)
  {
    SharedClusters(u, was, text, shared, cp.grapheme);
    SharedSpecials(Clusters(u, was), Clusters(u, text), cp.grapheme);
  }

  /** The checkpoints up to the restart point, as the new index takes them over. */
  lemma KeptAreCheckpoints(u: Unicode, l: Layout, at: nat)
    requires Lawful(u) && Faithful(u, l, l.text) && at <= |l.text|
    ensures var start := Restart(l, at);
            Placed(KeptCheckpoints(l, start) + [start], Clusters(u, l.text)) &&
            Spaced(KeptCheckpoints(l, start) + [start])
  {
    var start := Restart(l, at);
    RestartIsBoundary(u, l, at);
    if l.ascii {
      StridesPlaced(u, l.text, start.charCol);
    } else {
      var cs := Clusters(u, l.text);
      var pos := PartitionPoint(l.checkpoints, CharBelow(at));
      var i := if pos > 0 then pos - 1 else 0;
      PartitionAt(l.checkpoints, cs, i);
      assert l.checkpoints[..i] + [start] == l.checkpoints[..i + 1];
    }
  }

  lemma StridesPlaced(u: Unicode, text: string, n: nat)
    requires Lawful(u) && AllAscii(text) && IsLine(text) && n <= |text|
    ensures Placed(Strides(n) + [Checkpoint(n, n)], Clusters(u, text)) && Spaced(Strides(n) + [Checkpoint(n, n)])
  {
    var cps := Strides(n) + [Checkpoint(n, n)];
    AsciiLength(u, text);
    forall i | 0 <= i < |cps| ensures Exact(cps[i], Clusters(u, text)) {
      AsciiClusters(u, text, cps[i].charCol);
    }
    if n == 0 {
      assert Strides(0) == [];
    }
  }

  lemma PlacedInBoth(u: Unicode, was: string, text: string, shared: nat, cps: seq<Checkpoint>)
    requires shared <= |was| && shared <= |text| && was[..shared] == text[..shared]
    requires Placed(cps, Clusters(u, was))
    requires cps[|cps| - 1] == ORIGIN || cps[|cps| - 1].charCol < shared
    ensures Placed(cps, Clusters(u, text))
  {
    forall i | 0 <= i < |cps| ensures Exact(cps[i], Clusters(u, text)) {
      if i < |cps| - 1 {
        CheckpointsAscend(cps, Clusters(u, was), i, |cps| - 1);
      }
      ExactInBoth(u, was, text, shared, cps[i]);
    }
  }

  lemma SpecialsUpTo(cs: seq<Cluster>, k: nat)
    requires Sound(cs) && k <= |cs|
    ensures var all := SpecialsIn(cs, 0, |cs|);
            all[..PartitionPoint(all, Before(CharStart(cs, k)))] == SpecialsIn(cs, 0, k)
  {
    SpecialsSplit(cs, 0, k, |cs|);
    SpecialsBounds(cs, 0, k);
    SpecialsBounds(cs, k, |cs|);
    var a, b := SpecialsIn(cs, 0, k), SpecialsIn(cs, k, |cs|);
    if b != [] {
      assert b[0] in b;
    }
    PartitionIs(a, b, Before(CharStart(cs, k)));
  }

  method EditedSuffix(u: Unicode, l: Layout, start: nat, end: nat, inserted: string) returns (r: Layout)
    requires Lawful(u) && Faithful(u, l, l.text) && start <= end <= |l.text|
    requires IsLine(Splice(l.text, start, end, inserted))
    ensures Faithful(u, r, Splice(l.text, start, end, inserted))
  {
    var text := Splice(l.text, start, end, inserted);
    var restart := Restart(l, start);
    RestartIsBoundary(u, l, start);
    KeptAreCheckpoints(u, l, start);
    assert text[..start] == l.text[..start];
    var checkpoints := KeptCheckpoints(l, restart) + [restart];
    PlacedInBoth(u, l.text, text, start, checkpoints);
    ExactInBoth(u, l.text, text, start, restart);
    SpecialsUpTo(Clusters(u, l.text), restart.grapheme);
    var specials := l.specials[..PartitionPoint(l.specials, Before(restart.charCol))];
    r := BuildSuffix(u, text, AllAscii(text), restart, checkpoints, specials);
  }

  /** `LineIndex::edited`: the updated index is faithful to the edited text, like a
      new one, whatever the edit does to the line's character set. */
  method EditedLayout(u: Unicode, l: Layout, start: nat, end: nat, inserted: string) returns (r: Layout)
    requires Lawful(u) && Faithful(u, l, l.text) && start <= end <= |l.text|
    requires IsLine(Splice(l.text, start, end, inserted))
    ensures Faithful(u, r, Splice(l.text, start, end, inserted))
  {
    if l.ascii && AllAscii(Splice(l.text, start, end, inserted)) {
      r := EditedAscii(u, l, start, end, inserted);
    } else {
      r := EditedSuffix(u, l, start, end, inserted);
    }
  }
}
