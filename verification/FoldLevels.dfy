/** Nesting levels and `foldlevel` (ovim-core/src/fold.rs). */
module FoldLevels {
  import opened Basics
  import opened Folds
  import opened FoldOrder

  /** The stack of ends after the last fold; its height is that fold's level. */
  function Ends(folds: seq<Fold>): (r: seq<nat>)
    ensures folds != [] ==> |r| >= 1
  {
    if folds == [] then []
    else PopBelow(Ends(folds[..|folds| - 1]), folds[|folds| - 1].start) + [folds[|folds| - 1].end]
  }

  function Level(folds: seq<Fold>, i: nat): (r: nat)
    requires i < |folds|
    ensures r >= 1
  {
    |Ends(folds[..i + 1])|
  }

  function Levels(folds: seq<Fold>): (r: seq<nat>)
    ensures |r| == |folds|
    ensures forall i :: 0 <= i < |folds| ==> r[i] == Level(folds, i)
  {
    seq(|folds|, i requires 0 <= i < |folds| => Level(folds, i))
  }

  function Deepest(levels: seq<nat>): (r: nat)
    ensures forall i :: 0 <= i < |levels| ==> levels[i] <= r
    ensures r == 0 || r in levels
  {
    if levels == [] then 0
    else
      var rest := Deepest(levels[..|levels| - 1]);
      assert forall i :: 0 <= i < |levels| - 1 ==> levels[i] == levels[..|levels| - 1][i];
      Max(rest, levels[|levels| - 1])
  }

  /** The folds at or before position `n` that enclose `f`. */
  function Enclosing(folds: seq<Fold>, f: Fold): nat {
    if folds == [] then 0
    else Enclosing(folds[..|folds| - 1], f) + if folds[|folds| - 1].Encloses(f) then 1 else 0
  }

  function EndsOver(folds: seq<Fold>, start: nat): seq<nat> {
    if folds == [] then []
    else
      var rest := EndsOver(folds[..|folds| - 1], start);
      if folds[|folds| - 1].end >= start then rest + [folds[|folds| - 1].end] else rest
  }

  /** Every fold that still reaches `start` encloses all of the later ones. */
  predicate Chain(folds: seq<Fold>, start: nat) {
    forall i, j :: 0 <= i < j < |folds| && folds[i].end >= start && folds[j].end >= start ==>
      folds[i].end >= folds[j].end
  }

  lemma {:induction false} PopOfEndsOver(folds: seq<Fold>, a: nat, b: nat)
    requires a <= b && Chain(folds, a)
    ensures PopBelow(EndsOver(folds, a), b) == EndsOver(folds, b)
  {
    if folds != [] {
      var init, last := folds[..|folds| - 1], folds[|folds| - 1];
      PopOfEndsOver(init, a, b);
      if last.end >= b {
        EndsOverAll(init, a, b, last.end);
      } else if last.end >= a {
        assert EndsOver(folds, a)[..|EndsOver(folds, a)| - 1] == EndsOver(init, a);
      }
    }
  }

  /** If all that reach `a` reach even `b`, both cuts are the same. */
  lemma {:induction false} EndsOverAll(folds: seq<Fold>, a: nat, b: nat, e: nat)
    requires a <= b <= e
    requires forall i :: 0 <= i < |folds| && folds[i].end >= a ==> folds[i].end >= e
    ensures EndsOver(folds, a) == EndsOver(folds, b)
  {
    if folds != [] {
      EndsOverAll(folds[..|folds| - 1], a, b, e);
    }
  }

  /** In a nested-or-disjoint family, the folds reaching a fold's start are the
      ones that enclose it, each enclosing the next. */
  lemma ReachingIsEnclosing(folds: seq<Fold>, i: nat, n: nat)
    requires WellFormed(folds) && Laminar(folds) && i <= n < |folds|
    ensures folds[i].end >= folds[n].start <==> folds[i].Encloses(folds[n])
  {
    if i < n {
      assert Before(folds[i], folds[n]) && !folds[i].Crosses(folds[n]);
    }
  }

  lemma ReachingIsChain(folds: seq<Fold>, n: nat)
    requires WellFormed(folds) && Laminar(folds) && n < |folds|
    ensures Chain(folds[..n + 1], folds[n].start)
  {
    forall i, j | 0 <= i < j < n + 1 && folds[i].end >= folds[n].start && folds[j].end >= folds[n].start
      ensures folds[i].end >= folds[j].end
    {
      ReachingIsEnclosing(folds, i, n);
      ReachingIsEnclosing(folds, j, n);
      assert Before(folds[i], folds[j]) && !folds[i].Crosses(folds[j]);
    }
  }

  lemma {:induction false} StackIsEndsOver(folds: seq<Fold>, n: nat)
    requires WellFormed(folds) && Laminar(folds) && n < |folds|
    ensures Ends(folds[..n + 1]) == EndsOver(folds[..n + 1], folds[n].start)
  {
    assert folds[..n + 1][..n] == folds[..n];
    if n > 0 {
      StackIsEndsOver(folds, n - 1);
      ReachingIsChain(folds, n - 1);
      assert Before(folds[n - 1], folds[n]);
      PopOfEndsOver(folds[..n], folds[n - 1].start, folds[n].start);
    }
  }

  lemma {:induction false} EndsOverCounts(folds: seq<Fold>, n: nat, m: nat)
    requires WellFormed(folds) && Laminar(folds) && n <= m < |folds|
    ensures |EndsOver(folds[..n + 1], folds[m].start)| == Enclosing(folds[..n + 1], folds[m])
  {
    assert folds[..n + 1][..n] == folds[..n];
    ReachingIsEnclosing(folds, n, m);
    if n > 0 {
      EndsOverCounts(folds, n - 1, m);
    } else {
      assert folds[..0] == [];
    }
  }

  /** The stack-computed level is the number of enclosing folds. */
  lemma LevelCountsEnclosing(folds: seq<Fold>, n: nat)
    requires WellFormed(folds) && Laminar(folds) && n < |folds|
    ensures Level(folds, n) == Enclosing(folds[..n + 1], folds[n])
  {
    StackIsEndsOver(folds, n);
    EndsOverCounts(folds, n, n);
  }

  // ----- foldlevel ----------------------------------------------------------------

  /** Folds deeper than `level` closed, the others open. */
  function Leveled(folds: seq<Fold>, level: nat): (r: seq<Fold>)
    ensures |r| == |folds|
    ensures forall i :: 0 <= i < |folds| ==> r[i] == folds[i].(open := Level(folds, i) <= level)
  {
    seq(|folds|, i requires 0 <= i < |folds| => folds[i].(open := Level(folds, i) <= level))
  }

  /** `zR` hides nothing. */
  lemma AllOpenHidesNothing(folds: seq<Fold>, line: nat)
    ensures !HiddenBy(Leveled(folds, Deepest(Levels(folds))), line)
  {
    var r := Leveled(folds, Deepest(Levels(folds)));
    forall k | 0 <= k < |r| ensures !r[k].Hides(line) {
      assert Levels(folds)[k] <= Deepest(Levels(folds));
    }
  }

  /** `zM` hides the body of every fold. */
  lemma AllClosedHidesBodies(folds: seq<Fold>, line: nat)
    ensures HiddenBy(Leveled(folds, 0), line) <==> exists k :: 0 <= k < |folds| && folds[k].start < line <= folds[k].end
  {
    var r := Leveled(folds, 0);
    if exists k :: 0 <= k < |folds| && folds[k].start < line <= folds[k].end {
      var k :| 0 <= k < |folds| && folds[k].start < line <= folds[k].end;
      assert r[k].Hides(line);
    }
  }

  /** A higher level hides no line that a lower one shows. */
  lemma RaisingLevelHidesNothing(folds: seq<Fold>, low: nat, high: nat, line: nat)
    requires low <= high && HiddenBy(Leveled(folds, high), line)
    ensures HiddenBy(Leveled(folds, low), line)
  {
    var h, l := Leveled(folds, high), Leveled(folds, low);
    var k :| 0 <= k < |h| && h[k].Hides(line);
    assert l[k].Hides(line);
  }

  /** An open fold deeper than `level` with `line` in its body. */
  predicate OpenTooDeep(folds: seq<Fold>, level: nat, line: nat) {
    exists k :: 0 <= k < |folds| && folds[k].open && Level(folds, k) > level && folds[k].start < line <= folds[k].end
  }

  /** From a state with folds opened or closed by hand, re-applying a level
      hides a visible line exactly when some open fold deeper than the level
      has that line in its body. */
  lemma ReapplyHides(folds: seq<Fold>, level: nat, line: nat)
    requires !HiddenBy(folds, line)
    ensures HiddenBy(Leveled(folds, level), line) <==> OpenTooDeep(folds, level, line)
  {
    var r := Leveled(folds, level);
    if OpenTooDeep(folds, level, line) {
      var k :| 0 <= k < |folds| && folds[k].open && Level(folds, k) > level && folds[k].start < line <= folds[k].end;
      assert r[k].Hides(line);
    }
    if HiddenBy(r, line) {
      var k :| 0 <= k < |r| && r[k].Hides(line);
      assert !folds[k].Hides(line);
    }
  }

  /** `zr` can close a fold: with two nested folds, the inner one opened by hand
      under level 0, raising the level to 1 closes it again. */
  lemma RaisingMayCloseByHand()
    ensures var folds := [Fold(0, 9, true, Auto), Fold(2, 5, true, Auto)];
            !HiddenBy(folds, 3) && HiddenBy(Leveled(folds, 1), 3)
  {
    var folds := [Fold(0, 9, true, Auto), Fold(2, 5, true, Auto)];
    assert folds[..1] == [folds[0]] && folds[..2] == folds && folds[..1][..0] == [];
    assert Ends(folds[..1]) == [9];
    assert Ends(folds) == [9, 5];
    assert Leveled(folds, 1)[1].Hides(3);
  }
}
