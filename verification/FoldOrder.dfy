/** Sorting folds, and which automatic ranges may join them
    (ovim-core/src/fold.rs). */
module FoldOrder {
  import opened Basics
  import opened Folds

  /** The stable `sort_by` on (start ascending, end descending). */
  function SortFolds(s: seq<Fold>): (r: seq<Fold>)
    ensures |r| == |s|
    ensures forall f :: f in r <==> f in s
    ensures Sorted(r)
  {
    if s == [] then []
    else
      var r := InsertSorted(SortFolds(s[..|s| - 1]), s[|s| - 1]);
      assert s == s[..|s| - 1] + [s[|s| - 1]];
      r
  }

  /** `f` goes behind everything that may stand before it. */
  function InsertSorted(s: seq<Fold>, f: Fold): (r: seq<Fold>)
    requires Sorted(s)
    ensures |r| == |s| + 1
    ensures forall g :: g in r <==> g in s || g == f
    ensures Sorted(r)
  {
    if s == [] || Before(s[|s| - 1], f) then s + [f]
    else
      var init := s[..|s| - 1];
      var r := InsertSorted(init, f);
      assert s == init + [s[|s| - 1]];
      assert forall j :: 0 <= j < |s| - 1 ==> Before(s[j], s[|s| - 1]);
      assert forall g :: g in init ==> Before(g, s[|s| - 1]);
      assert forall i :: 0 <= i < |r| ==> r[i] in r;
      r + [s[|s| - 1]]
  }

  lemma {:induction false} SortKeepsMultiset(s: seq<Fold>)
    ensures multiset(SortFolds(s)) == multiset(s)
  {
    if s != [] {
      SortKeepsMultiset(s[..|s| - 1]);
      InsertAddsOne(SortFolds(s[..|s| - 1]), s[|s| - 1]);
      assert s == s[..|s| - 1] + [s[|s| - 1]];
    }
  }

  lemma {:induction false} InsertAddsOne(s: seq<Fold>, f: Fold)
    requires Sorted(s)
    ensures multiset(InsertSorted(s, f)) == multiset(s) + multiset{f}
  {
    if !(s == [] || Before(s[|s| - 1], f)) {
      InsertAddsOne(s[..|s| - 1], f);
      assert s == s[..|s| - 1] + [s[|s| - 1]];
    }
  }

  /** The folds of one range, in their order. */
  function OfRange(s: seq<Fold>, start: nat, end: nat): seq<Fold> {
    Filter(s, (f: Fold) => f.start == start && f.end == end)
  }

  lemma OfRangeLast(s: seq<Fold>, f: Fold, start: nat, end: nat)
    ensures OfRange(s + [f], start, end)
            == OfRange(s, start, end) + if f.start == start && f.end == end then [f] else []
  {
    assert (s + [f])[..|s|] == s;
  }

  lemma {:induction false} InsertIsStable(s: seq<Fold>, f: Fold, start: nat, end: nat)
    requires Sorted(s)
    ensures OfRange(InsertSorted(s, f), start, end) == OfRange(s + [f], start, end)
  {
    OfRangeLast(s, f, start, end);
    if !(s == [] || Before(s[|s| - 1], f)) {
      var init, last := s[..|s| - 1], s[|s| - 1];
      assert s == init + [last];
      InsertIsStable(init, f, start, end);
      OfRangeLast(init, f, start, end);
      OfRangeLast(init, last, start, end);
      OfRangeLast(InsertSorted(init, f), last, start, end);
    }
  }

  /** Folds of the same range keep their order. */
  lemma {:induction false} SortIsStable(s: seq<Fold>, start: nat, end: nat)
    ensures OfRange(SortFolds(s), start, end) == OfRange(s, start, end)
  {
    if s != [] {
      var init, last := s[..|s| - 1], s[|s| - 1];
      assert s == init + [last];
      SortIsStable(init, start, end);
      InsertIsStable(SortFolds(init), last, start, end);
      OfRangeLast(init, last, start, end);
      OfRangeLast(SortFolds(init), last, start, end);
    }
  }

  /** Nested-or-disjoint is a property of the set of folds. */
  lemma LaminarBySet(s: seq<Fold>)
    ensures Laminar(s) <==> forall f, g :: f in s && g in s ==> !f.Crosses(g)
  {
    if Laminar(s) {
      forall f, g | f in s && g in s ensures !f.Crosses(g) {
        var i :| 0 <= i < |s| && s[i] == f;
        var j :| 0 <= j < |s| && s[j] == g;
        if i < j {
          assert !s[i].Crosses(s[j]);
        } else if j < i {
          assert !s[j].Crosses(s[i]);
        }
      }
    }
  }

  // ----- automatic folds: the sweep against the quadratic filter -----------------

  predicate CrossesAny(folds: seq<Fold>, c: Fold) {
    exists k :: 0 <= k < |folds| && folds[k].Crosses(c)
  }

  /** Candidates in order; each is dropped exactly if it crosses one accepted
      before it or a manual fold. */
  function Greedy(candidates: seq<Fold>, manual: seq<Fold>): seq<Fold> {
    if candidates == [] then []
    else
      var rest, c := Greedy(candidates[..|candidates| - 1], manual), candidates[|candidates| - 1];
      if CrossesAny(rest, c) || CrossesAny(manual, c) then rest else rest + [c]
  }

  /** Sorted with no two the same: what sorting and deduplicating yields. */
  predicate Candidates(s: seq<Fold>) {
    (forall i :: 0 <= i < |s| ==> s[i].start < s[i].end) &&
    forall i, j :: 0 <= i < j < |s| ==> s[i].start < s[j].start || (s[i].start == s[j].start && s[i].end > s[j].end)
  }

  predicate NonIncreasing(ends: seq<nat>) {
    forall i, j :: 0 <= i < j < |ends| ==> ends[i] >= ends[j]
  }

  function PopBelow(ends: seq<nat>, start: nat): (r: seq<nat>)
    ensures r <= ends
    ensures r != [] ==> r[|r| - 1] >= start
  {
    if ends == [] || ends[|ends| - 1] >= start then ends else PopBelow(ends[..|ends| - 1], start)
  }

  lemma {:induction false} PopBelowDrops(ends: seq<nat>, start: nat)
    requires NonIncreasing(ends)
    ensures forall e :: e in PopBelow(ends, start) <==> e in ends && e >= start
  {
    if ends != [] {
      if ends[|ends| - 1] < start {
        PopBelowDrops(ends[..|ends| - 1], start);
        assert ends == ends[..|ends| - 1] + [ends[|ends| - 1]];
      } else {
        forall e | e in ends ensures e >= start {
          var i :| 0 <= i < |ends| && ends[i] == e;
        }
      }
    }
  }

  /** The stack holds the ends of the accepted folds still reaching `start`. */
  predicate StackOf(ends: seq<nat>, accepted: seq<Fold>, start: nat) {
    NonIncreasing(ends) &&
    (forall e :: e in ends ==> exists k :: 0 <= k < |accepted| && accepted[k].end == e) &&
    (forall k :: 0 <= k < |accepted| ==> accepted[k].end < start || accepted[k].end in ends)
  }

  lemma StackAfterPop(ends: seq<nat>, accepted: seq<Fold>, start: nat, next: nat)
    requires StackOf(ends, accepted, start) && start <= next
    ensures StackOf(PopBelow(ends, next), accepted, next)
    ensures forall e :: e in PopBelow(ends, next) ==> e >= next
  {
    PopBelowDrops(ends, next);
  }

  /** With the stack popped to the candidate's start, its top alone tells
      whether the candidate crosses any accepted fold. */
  lemma TopTellsCrossing(ends: seq<nat>, accepted: seq<Fold>, c: Fold)
    requires StackOf(ends, accepted, c.start) && c.start < c.end
    requires forall e :: e in ends ==> e >= c.start
    requires forall k :: 0 <= k < |accepted| ==>
               accepted[k].start < c.start || (accepted[k].start == c.start && accepted[k].end > c.end)
    ensures (ends != [] && ends[|ends| - 1] < c.end) <==> CrossesAny(accepted, c)
  {
    if ends != [] && ends[|ends| - 1] < c.end {
      assert ends[|ends| - 1] in ends;
      var k :| 0 <= k < |accepted| && accepted[k].end == ends[|ends| - 1];
      assert accepted[k].Crosses(c);
    }
    if CrossesAny(accepted, c) {
      var k :| 0 <= k < |accepted| && accepted[k].Crosses(c);
      assert accepted[k].end in ends && accepted[k].end < c.end;
      var i :| 0 <= i < |ends| && ends[i] == accepted[k].end;
    }
  }

  /** Accepting pushes the candidate's end, which is no larger than the top. */
  lemma StackAfterPush(ends: seq<nat>, accepted: seq<Fold>, c: Fold)
    requires StackOf(ends, accepted, c.start)
    requires ends != [] ==> ends[|ends| - 1] >= c.end
    ensures StackOf(ends + [c.end], accepted + [c], c.start)
  {
    var e', a' := ends + [c.end], accepted + [c];
    forall e | e in e' ensures exists k :: 0 <= k < |a'| && a'[k].end == e {
      if e in ends {
        var k :| 0 <= k < |accepted| && accepted[k].end == e;
        assert a'[k].end == e;
      } else {
        assert a'[|accepted|].end == e;
      }
    }
  }

  lemma {:induction false} GreedyComesFrom(candidates: seq<Fold>, manual: seq<Fold>)
    ensures forall f :: f in Greedy(candidates, manual) ==> f in candidates && !CrossesAny(manual, f)
  {
    if candidates != [] {
      GreedyComesFrom(candidates[..|candidates| - 1], manual);
      assert candidates == candidates[..|candidates| - 1] + [candidates[|candidates| - 1]];
    }
  }

  lemma {:induction false} GreedyLaminar(candidates: seq<Fold>, manual: seq<Fold>)
    ensures Laminar(Greedy(candidates, manual))
  {
    if candidates != [] {
      GreedyLaminar(candidates[..|candidates| - 1], manual);
    }
  }

  /** What the sweep accepts joins the manual folds without a crossing. */
  lemma AcceptedJoinManual(candidates: seq<Fold>, manual: seq<Fold>)
    requires Laminar(manual)
    ensures forall f, g :: f in manual + Greedy(candidates, manual) && g in manual + Greedy(candidates, manual)
              ==> !f.Crosses(g)
  {
    GreedyComesFrom(candidates, manual);
    GreedyLaminar(candidates, manual);
    LaminarBySet(manual);
    LaminarBySet(Greedy(candidates, manual));
    forall f, g | f in manual && g in Greedy(candidates, manual) ensures !f.Crosses(g) && !g.Crosses(f) {
      var k :| 0 <= k < |manual| && manual[k] == f;
      assert !manual[k].Crosses(g);
    }
  }
}
