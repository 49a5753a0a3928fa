/** The sparse display metadata of a line index: only tabs and clusters whose
    cells differ from their characters are recorded, and every other column is
    arithmetic (ovim-core/src/text_index.rs). */
module DisplaySpecials {
  import opened Basics
  import opened Display
  import opened Search

  /** `width` is None for a tab. */
  datatype Special = Special(start: nat, end: nat, width: Option<nat>)

  datatype Point = Point(start: nat, end: nat, displayStart: nat, displayEnd: nat)

  predicate IsSpecial(c: Cluster) {
    c.tab || c.width != c.chars
  }

  function SpecialAt(cs: seq<Cluster>, k: nat): Special
    requires k < |cs|
  {
    Special(CharStart(cs, k), CharStart(cs, k + 1), if cs[k].tab then None else Some(cs[k].width))
  }

  /** The specials among clusters `from` to `to`. */
  function SpecialsIn(cs: seq<Cluster>, from: nat, to: nat): seq<Special>
    requires from <= to <= |cs|
  {
    if to == from then []
    else SpecialsIn(cs, from, to - 1) + if IsSpecial(cs[to - 1]) then [SpecialAt(cs, to - 1)] else []
  }

  lemma {:induction false} SpecialsSplit(cs: seq<Cluster>, from: nat, mid: nat, to: nat)
    requires from <= mid <= to <= |cs|
    ensures SpecialsIn(cs, from, to) == SpecialsIn(cs, from, mid) + SpecialsIn(cs, mid, to)
  {
    if mid < to {
      SpecialsSplit(cs, from, mid, to - 1);
    }
  }

  lemma {:induction false} SpecialsBounds(cs: seq<Cluster>, from: nat, to: nat)
    requires from <= to <= |cs| && Sound(cs)
    ensures forall s :: s in SpecialsIn(cs, from, to) ==>
              CharStart(cs, from) <= s.start < s.end <= CharStart(cs, to)
  {
    if from < to {
      SpecialsBounds(cs, from, to - 1);
      CharStartMonotone(cs, from, to - 1);
      CharStartGrows(cs, to - 1, to);
    }
  }

  /** Clusters shared by two lines are special in both. */
  lemma {:induction false} SharedSpecials(cs: seq<Cluster>, ds: seq<Cluster>, k: nat)
    requires k <= |cs| && k <= |ds| && forall j :: 0 <= j < k ==> cs[j] == ds[j]
    ensures CharStart(cs, k) == CharStart(ds, k)
    ensures SpecialsIn(cs, 0, k) == SpecialsIn(ds, 0, k)
  {
    if k > 0 {
      SharedSpecials(cs, ds, k - 1);
    }
  }

  // ----- display points --------------------------------------------------------------

  function PointAt(cs: seq<Cluster>, tab: nat, k: nat): Point
    requires k < |cs| && tab >= 1
  {
    Point(CharStart(cs, k), CharStart(cs, k + 1), DisplayStart(cs, k, tab), DisplayStart(cs, k + 1, tab))
  }

  function PointsIn(cs: seq<Cluster>, tab: nat, from: nat, to: nat): seq<Point>
    requires from <= to <= |cs| && tab >= 1
  {
    if to == from then []
    else PointsIn(cs, tab, from, to - 1) + if IsSpecial(cs[to - 1]) then [PointAt(cs, tab, to - 1)] else []
  }

  lemma {:induction false} PointsSplit(cs: seq<Cluster>, tab: nat, from: nat, mid: nat, to: nat)
    requires from <= mid <= to <= |cs| && tab >= 1
    ensures PointsIn(cs, tab, from, to) == PointsIn(cs, tab, from, mid) + PointsIn(cs, tab, mid, to)
  {
    if mid < to {
      PointsSplit(cs, tab, from, mid, to - 1);
    }
  }

  lemma {:induction false} PointsAreAt(cs: seq<Cluster>, tab: nat, from: nat, to: nat, i: nat) returns (k: nat)
    requires from <= to <= |cs| && tab >= 1 && i < |PointsIn(cs, tab, from, to)|
    ensures from <= k < to && IsSpecial(cs[k]) && PointsIn(cs, tab, from, to)[i] == PointAt(cs, tab, k)
  {
    if i < |PointsIn(cs, tab, from, to - 1)| {
      k := PointsAreAt(cs, tab, from, to - 1, i);
    } else {
      k := to - 1;
    }
  }

  /** Where the last point before cluster `k` leaves off, columns count one cell
      a character. */
  predicate Anchored(points: seq<Point>, chars: nat, display: nat) {
    if points == [] then display == chars
    else
      var p := points[|points| - 1];
      p.end <= chars && p.displayEnd <= display && display == p.displayEnd + (chars - p.end)
  }

  lemma {:induction false} PointsAnchor(cs: seq<Cluster>, tab: nat, k: nat)
    requires Sound(cs) && k <= |cs| && tab >= 1
    ensures Anchored(PointsIn(cs, tab, 0, k), CharStart(cs, k), DisplayStart(cs, k, tab))
  {
    if k > 0 {
      PointsAnchor(cs, tab, k - 1);
    }
  }

  /** What `display_checkpoints` has computed after `i` specials. */
  datatype Walk = Walk(points: seq<Point>, chars: nat, display: nat)

  function StepPoint(w: Walk, s: Special, tab: nat): Walk
    requires tab >= 1 && w.chars <= s.start
  {
    var display := w.display + (s.start - w.chars);
    var width := if s.width.Some? then s.width.value else tab - display % tab;
    Walk(w.points + [Point(s.start, s.end, display, display + width)], s.end, display + width)
  }

  predicate InStep(w: Walk, cs: seq<Cluster>, tab: nat, k: nat)
    requires k <= |cs| && tab >= 1
  {
    w.points == PointsIn(cs, tab, 0, k) && w.chars <= CharStart(cs, k) &&
    w.display + (CharStart(cs, k) - w.chars) == DisplayStart(cs, k, tab)
  }

  lemma OneMoreCluster(w: Walk, cs: seq<Cluster>, tab: nat, k: nat)
    requires k < |cs| && tab >= 1 && InStep(w, cs, tab, k)
    ensures IsSpecial(cs[k]) ==> InStep(StepPoint(w, SpecialAt(cs, k), tab), cs, tab, k + 1)
    ensures !IsSpecial(cs[k]) ==> InStep(w, cs, tab, k + 1)
  {
  }

  method DisplayPoints(specials: seq<Special>, tab: nat, ghost cs: seq<Cluster>) returns (points: seq<Point>)
    requires Sound(cs) && tab >= 1 && specials == SpecialsIn(cs, 0, |cs|)
    ensures points == PointsIn(cs, tab, 0, |cs|)
  {
    var w := Walk([], 0, 0);
    ghost var k := 0;
    for i := 0 to |specials|
      invariant k <= |cs| && InStep(w, cs, tab, k) && specials[i..] == SpecialsIn(cs, k, |cs|)
    {
      k := SkipPlain(w, cs, tab, k);
      OneMoreCluster(w, cs, tab, k);
      SpecialsSplit(cs, k, k + 1, |cs|);
      NextSpecial(cs, k, specials[i..]);
      w := StepPoint(w, specials[i], tab);
      k := k + 1;
    }
    k := SkipAll(w, cs, tab, k);
    return w.points;
  }

  lemma SpecialFirst(cs: seq<Cluster>, k: nat)
    requires k < |cs| && IsSpecial(cs[k])
    ensures SpecialsIn(cs, k, |cs|) == [SpecialAt(cs, k)] + SpecialsIn(cs, k + 1, |cs|)
  {
    SpecialsSplit(cs, k, k + 1, |cs|);
    assert SpecialsIn(cs, k, k) == [];
  }

  lemma NextSpecial(cs: seq<Cluster>, k: nat, rest: seq<Special>)
    requires k < |cs| && IsSpecial(cs[k]) && rest == SpecialsIn(cs, k, |cs|)
    ensures rest != [] && rest[0] == SpecialAt(cs, k) && rest[1..] == SpecialsIn(cs, k + 1, |cs|)
  {
    SpecialFirst(cs, k);
  }

  /** Plain clusters need no step. */
  lemma {:induction false} SkipPlain(w: Walk, cs: seq<Cluster>, tab: nat, k: nat) returns (n: nat)
    requires k <= |cs| && tab >= 1 && InStep(w, cs, tab, k) && SpecialsIn(cs, k, |cs|) != []
    ensures k <= n < |cs| && InStep(w, cs, tab, n) && IsSpecial(cs[n])
    ensures SpecialsIn(cs, n, |cs|) == SpecialsIn(cs, k, |cs|)
    decreases |cs| - k
  {
    n := k;
    if !IsSpecial(cs[k]) {
      OneMoreCluster(w, cs, tab, k);
      SpecialsSplit(cs, k, k + 1, |cs|);
      assert SpecialsIn(cs, k, k) == [];
      n := SkipPlain(w, cs, tab, k + 1);
    }
  }

  lemma {:induction false} SkipAll(w: Walk, cs: seq<Cluster>, tab: nat, k: nat) returns (n: nat)
    requires k <= |cs| && tab >= 1 && InStep(w, cs, tab, k) && SpecialsIn(cs, k, |cs|) == []
    ensures n == |cs| && InStep(w, cs, tab, n)
    decreases |cs| - k
  {
    n := k;
    if k < |cs| {
      OneMoreCluster(w, cs, tab, k);
      SpecialsSplit(cs, k, k + 1, |cs|);
      assert SpecialsIn(cs, k, k) == [];
      assert !IsSpecial(cs[k]);
      n := SkipAll(w, cs, tab, k + 1);
    }
  }

  // ----- looking columns up ---------------------------------------------------------------

  /** The cell of cluster boundary `k`, from the points alone. */
  function CellOfChar(points: seq<Point>, col: nat): int {
    var pos := PartitionPoint(points, (p: Point) => p.end <= col);
    if pos == 0 then col else points[pos - 1].displayEnd + col - points[pos - 1].end
  }

  lemma PointEndsBefore(cs: seq<Cluster>, tab: nat, k: nat, x: Point)
    requires Sound(cs) && k <= |cs| && tab >= 1 && x in PointsIn(cs, tab, 0, k)
    ensures x.end <= CharStart(cs, k)
  {
    var i :| 0 <= i < |PointsIn(cs, tab, 0, k)| && PointsIn(cs, tab, 0, k)[i] == x;
    var j := PointsAreAt(cs, tab, 0, k, i);
    CharStartMonotone(cs, j + 1, k);
  }

  /** The sparse arithmetic gives the walk's display column at every boundary. */
  lemma CellOfCharExact(cs: seq<Cluster>, tab: nat, k: nat)
    requires Sound(cs) && k <= |cs| && tab >= 1
    ensures CellOfChar(PointsIn(cs, tab, 0, |cs|), CharStart(cs, k)) == DisplayStart(cs, k, tab)
  {
    var col := CharStart(cs, k);
    var a, b := PointsIn(cs, tab, 0, k), PointsIn(cs, tab, k, |cs|);
    PointsSplit(cs, tab, 0, k, |cs|);
    PointsAnchor(cs, tab, k);
    var p := (p: Point) => p.end <= col;
    forall x | x in a ensures p(x) {
      PointEndsBefore(cs, tab, k, x);
    }
    if b != [] {
      var j := PointsAreAt(cs, tab, k, |cs|, 0);
      CharStartGrows(cs, k, j + 1);
    }
    PartitionIs(a, b, p);
  }

  predicate Passed(p: Point, d: nat) {
    p.displayEnd < d || (p.displayEnd == d && p.displayStart < d)
  }

  /** The character before snapping: a special cluster's first character, or
      arithmetic in a plain run, clamped to the line. */
  function CharOfCell(points: seq<Point>, d: nat, len: nat): int {
    var pos := PartitionPoint(points, (p: Point) => Passed(p, d));
    if pos < |points| && d >= points[pos].displayStart then points[pos].start
    else
      var c := if pos == 0 then d
               else points[pos - 1].end + if d >= points[pos - 1].displayEnd then d - points[pos - 1].displayEnd else 0;
      if c <= len then c else len
  }

  lemma PointsPassed(cs: seq<Cluster>, d: nat, tab: nat, k: nat, i: nat)
    requires k <= |cs| && tab >= 1 && (forall j: nat :: j < k ==> LeftOf(cs, d, tab, j))
    requires i < |PointsIn(cs, tab, 0, k)|
    ensures Passed(PointsIn(cs, tab, 0, k)[i], d)
  {
    var j := PointsAreAt(cs, tab, 0, k, i);
    assert LeftOf(cs, d, tab, j);
  }

  lemma SpecialHead(cs: seq<Cluster>, tab: nat, k: nat)
    requires k < |cs| && tab >= 1
    ensures var b := PointsIn(cs, tab, k, |cs|);
            if IsSpecial(cs[k]) then b != [] && b[0] == PointAt(cs, tab, k) else b == PointsIn(cs, tab, k + 1, |cs|)
  {
    PointsSplit(cs, tab, k, k + 1, |cs|);
    assert PointsIn(cs, tab, k, k) == [];
  }

  /** After the cluster a column lands in, no special has been passed; and when that
      cluster is plain, the next special lies strictly to the right. */
  lemma PointsAhead(cs: seq<Cluster>, d: nat, tab: nat, k: nat)
    requires k < |cs| && tab >= 1 && Sound(cs) && !LeftOf(cs, d, tab, k) && PointsIn(cs, tab, k, |cs|) != []
    requires DisplayStart(cs, k, tab) <= d
    ensures !Passed(PointsIn(cs, tab, k, |cs|)[0], d)
    ensures !IsSpecial(cs[k]) ==> d < PointsIn(cs, tab, k, |cs|)[0].displayStart
  {
    SpecialHead(cs, tab, k);
    if !IsSpecial(cs[k]) {
      LandsInPlain(cs, d, tab, k);
      var j := PointsAreAt(cs, tab, k + 1, |cs|, 0);
      DisplayStartGrows(cs, k + 1, j, tab);
      DisplayStartGrows(cs, j, j + 1, tab);
    } else {
      DisplayStartGrows(cs, k, k + 1, tab);
    }
  }

  lemma ReachedFrom(cs: seq<Cluster>, d: nat, tab: nat, k: nat)
    requires k <= |cs| && tab >= 1 && (forall j: nat :: j < k ==> LeftOf(cs, d, tab, j))
    ensures DisplayStart(cs, k, tab) <= d
  {
    if k > 0 {
      assert LeftOf(cs, d, tab, k - 1);
    }
  }

  /** The points passed are exactly those before the cluster the walk stops in. */
  lemma PassedCount(cs: seq<Cluster>, d: nat, tab: nat)
    requires Sound(cs) && tab >= 1
    ensures var k := ClusterOfCell(cs, d, tab, 0);
            PartitionPoint(PointsIn(cs, tab, 0, |cs|), (p: Point) => Passed(p, d)) == |PointsIn(cs, tab, 0, k)|
  {
    var k := ClusterOfCell(cs, d, tab, 0);
    var a, b := PointsIn(cs, tab, 0, k), PointsIn(cs, tab, k, |cs|);
    PointsSplit(cs, tab, 0, k, |cs|);
    ReachedFrom(cs, d, tab, k);
    var p := (p: Point) => Passed(p, d);
    forall x | x in a ensures p(x) {
      var i :| 0 <= i < |a| && a[i] == x;
      PointsPassed(cs, d, tab, k, i);
    }
    if b != [] {
      PointsAhead(cs, d, tab, k);
    }
    PartitionIs(a, b, p);
  }

  /** The sparse arithmetic lands in the same cluster as the walk; a special that is
      reached but not passed is that cluster itself. */
  lemma CharOfCellExact(cs: seq<Cluster>, d: nat, tab: nat)
    requires Sound(cs) && tab >= 1
    ensures var k := ClusterOfCell(cs, d, tab, 0);
            var c := CharOfCell(PointsIn(cs, tab, 0, |cs|), d, CharStart(cs, |cs|));
            CharStart(cs, k) <= c && (if k == |cs| then c == CharStart(cs, k) else c < CharStart(cs, k + 1))
    ensures var points := PointsIn(cs, tab, 0, |cs|);
            var pos := PartitionPoint(points, (p: Point) => Passed(p, d));
            pos < |points| && d >= points[pos].displayStart ==>
              points[pos].start == CharStart(cs, ClusterOfCell(cs, d, tab, 0))
  {
    var k := ClusterOfCell(cs, d, tab, 0);
    PassedCount(cs, d, tab);
    PointsSplit(cs, tab, 0, k, |cs|);
    PointsAnchor(cs, tab, k);
    ReachedFrom(cs, d, tab, k);
    CharStartMonotone(cs, k, |cs|);
    if k < |cs| {
      CharStartMonotone(cs, k + 1, |cs|);
      LandsInPlain(cs, d, tab, k);
      SpecialHead(cs, tab, k);
      if PointsIn(cs, tab, k, |cs|) != [] {
        PointsAhead(cs, d, tab, k);
      }
    }
  }

  lemma LandsInPlain(cs: seq<Cluster>, d: nat, tab: nat, k: nat)
    requires Sound(cs) && tab >= 1 && k < |cs| && !LeftOf(cs, d, tab, k) && DisplayStart(cs, k, tab) <= d
    ensures !IsSpecial(cs[k]) ==> d - DisplayStart(cs, k, tab) < cs[k].chars && d < DisplayStart(cs, k + 1, tab)
  {
  }
}
