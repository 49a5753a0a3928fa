/** The bounded log of recent edit groups keyed by buffer version
    (ovim-core/src/edit_log.rs). */
module EditLogQueries {
  import opened Basics
  import opened Edits

  datatype Group = Group(postVersion: nat, edits: seq<Edit>)

  function Concat(groups: seq<Group>): seq<Edit> {
    if groups == [] then [] else Concat(groups[..|groups| - 1]) + groups[|groups| - 1].edits
  }

  function SaturatingSub(a: nat, b: nat): nat {
    if a >= b then a - b else 0
  }

  /** The groups of `entries` newer than `base`. */
  function Newer(entries: seq<Group>, base: nat): seq<Edit> {
    if entries == [] then []
    else
      var rest := Newer(entries[..|entries| - 1], base);
      var last := entries[|entries| - 1];
      if last.postVersion > base then rest + last.edits else rest
  }

  function EditsSince(entries: seq<Group>, base: nat): Option<seq<Edit>> {
    if entries == [] then Some([])
    else if base < SaturatingSub(entries[0].postVersion, |entries[0].edits|) then None
    else Some(Newer(entries, base))
  }

  /** Version after the first `k` groups, counting one bump per edit. */
  function VersionAfter(groups: seq<Group>, k: nat, first: nat): nat
    requires k <= |groups|
  {
    if k == 0 then first else VersionAfter(groups, k - 1, first) + |groups[k - 1].edits|
  }

  /** A full history: non-empty groups, each labelled with its end version. */
  predicate Versioned(groups: seq<Group>, first: nat) {
    forall k :: 0 <= k < |groups| ==>
      groups[k].edits != [] && groups[k].postVersion == VersionAfter(groups, k + 1, first)
  }

  // ----- what a query returns -------------------------------------------------

  /** All edits of a history, and the version each one leads from. */
  lemma {:induction false} VersionsAscend(groups: seq<Group>, first: nat, i: nat, j: nat)
    requires Versioned(groups, first) && i <= j <= |groups|
    ensures VersionAfter(groups, i, first) + (j - i) <= VersionAfter(groups, j, first)
  {
    if i < j {
      VersionsAscend(groups, first, i, j - 1);
    }
  }

  lemma {:induction false} VersionIsEditCount(groups: seq<Group>, first: nat, k: nat)
    requires k <= |groups|
    ensures VersionAfter(groups, k, first) == first + |Concat(groups[..k])|
  {
    if k > 0 {
      VersionIsEditCount(groups, first, k - 1);
      assert groups[..k][..k - 1] == groups[..k - 1];
    }
  }

  lemma {:induction false} ConcatSplit(a: seq<Group>, b: seq<Group>)
    ensures Concat(a + b) == Concat(a) + Concat(b)
  {
    if b == [] {
      assert a + b == a;
    } else {
      ConcatSplit(a, b[..|b| - 1]);
      assert (a + b)[..|a + b| - 1] == a + b[..|b| - 1];
      Associate(Concat(a), Concat(b[..|b| - 1]), b[|b| - 1].edits);
    }
  }

  lemma NewerLast(groups: seq<Group>, r: nat, n: nat)
    requires r < n <= |groups|
    ensures groups[r..n][..n - r - 1] == groups[r..n - 1] && groups[r..n][n - r - 1] == groups[n - 1]
  {
  }

  lemma NewerStep(groups: seq<Group>, r: nat, n: nat, base: nat)
    requires r < n <= |groups|
    ensures Newer(groups[r..n], base)
            == Newer(groups[r..n - 1], base) + if groups[n - 1].postVersion > base then groups[n - 1].edits else []
  {
    NewerLast(groups, r, n);
  }

  lemma ConcatStep(groups: seq<Group>, r: nat, n: nat)
    requires r < n <= |groups|
    ensures Concat(groups[r..n]) == Concat(groups[r..n - 1]) + groups[n - 1].edits
  {
    NewerLast(groups, r, n);
  }

  /** Groups that end by `base` are skipped, later ones taken whole. */
  lemma {:induction false} NewerOfOld(groups: seq<Group>, first: nat, r: nat, n: nat, k: nat, base: nat)
    requires Versioned(groups, first) && r <= n <= k <= |groups|
    requires k > 0 ==> VersionAfter(groups, k, first) <= base
    ensures Newer(groups[r..n], base) == []
    decreases n
  {
    if r < n {
      NewerOfOld(groups, first, r, n - 1, k, base);
      NewerStep(groups, r, n, base);
      VersionsAscend(groups, first, n, k);
    }
  }

  lemma NewerTakesLast(groups: seq<Group>, r: nat, m: nat, n: nat, base: nat)
    requires r <= m < n <= |groups| && groups[n - 1].postVersion > base
    requires Newer(groups[r..n - 1], base) == Newer(groups[r..m], base) + Concat(groups[m..n - 1])
    ensures Newer(groups[r..n], base) == Newer(groups[r..m], base) + Concat(groups[m..n])
  {
    NewerStep(groups, r, n, base);
    ConcatStep(groups, m, n);
    Associate(Newer(groups[r..m], base), Concat(groups[m..n - 1]), groups[n - 1].edits);
  }

  lemma {:induction false} NewerOfNew(groups: seq<Group>, first: nat, r: nat, m: nat, n: nat, k: nat, base: nat)
    requires Versioned(groups, first) && r <= m <= n <= |groups| && k <= m
    requires k < |groups| ==> base < VersionAfter(groups, k + 1, first)
    ensures Newer(groups[r..n], base) == Newer(groups[r..m], base) + Concat(groups[m..n])
    decreases n
  {
    if m < n {
      NewerOfNew(groups, first, r, m, n - 1, k, base);
      VersionsAscend(groups, first, k + 1, n);
      NewerTakesLast(groups, r, m, n, base);
    } else {
      assert groups[m..n] == [];
    }
  }

  /** The groups newer than a version between two group ends are exactly the
      groups from there on. */
  lemma NewerIsSuffix(groups: seq<Group>, first: nat, r: nat, n: nat, k: nat, base: nat)
    requires Versioned(groups, first) && r <= n <= |groups| && k <= |groups|
    requires k > 0 ==> VersionAfter(groups, k, first) <= base
    requires k < |groups| ==> base < VersionAfter(groups, k + 1, first)
    ensures Newer(groups[r..n], base)
            == if k < r then Concat(groups[r..n]) else if k < n then Concat(groups[k..n]) else []
  {
    if k >= n {
      NewerOfOld(groups, first, r, n, k, base);
    } else if k < r {
      NewerOfNew(groups, first, r, r, n, k, base);
      assert groups[r..r] == [];
    } else {
      NewerOfOld(groups, first, r, k, k, base);
      NewerOfNew(groups, first, r, k, n, k, base);
    }
  }

  /** A log that evicted the first `r` groups of a history, queried at the end
      version of group `k`: nothing if a needed group is gone, else exactly the
      groups after `k`. */
  lemma EditsSinceBoundary(groups: seq<Group>, first: nat, r: nat, k: nat)
    requires Versioned(groups, first) && r < |groups| && k <= |groups|
    ensures var base := VersionAfter(groups, k, first);
            EditsSince(groups[r..], base) == if k < r then None else Some(Concat(groups[k..]))
  {
    OldestPre(groups, first, r);
    if k < r {
      VersionsAscend(groups, first, k, r);
    } else {
      VersionsAscend(groups, first, r, k);
      NewerFromBoundary(groups, first, r, k);
    }
  }

  lemma NewerFromBoundary(groups: seq<Group>, first: nat, r: nat, k: nat)
    requires Versioned(groups, first) && r < |groups| && r <= k <= |groups|
    ensures Newer(groups[r..], VersionAfter(groups, k, first)) == Concat(groups[k..])
  {
    if k < |groups| {
      VersionsAscend(groups, first, k, k + 1);
    }
    NewerIsSuffix(groups, first, r, |groups|, k, VersionAfter(groups, k, first));
    assert groups[r..|groups|] == groups[r..] && groups[k..|groups|] == groups[k..];
  }

  lemma OldestPre(groups: seq<Group>, first: nat, r: nat)
    requires Versioned(groups, first) && r < |groups|
    ensures SaturatingSub(groups[r].postVersion, |groups[r].edits|) == VersionAfter(groups, r, first)
  {
    assert groups[r].postVersion == VersionAfter(groups, r + 1, first);
  }

  /** The promise of `edits_since` at group boundaries: `None` exactly when a
      needed group was evicted, else edits that take the text of that version
      to the current text. */
  lemma ReplayFromBoundary(groups: seq<Group>, first: nat, r: nat, k: nat, text0: string)
    requires Versioned(groups, first) && r < |groups| && k <= |groups|
    ensures var answer := EditsSince(groups[r..], VersionAfter(groups, k, first));
            (answer == None <==> k < r) &&
            (answer.Some? ==>
               ApplyAll(answer.value, ApplyAll(Concat(groups[..k]), text0)) == ApplyAll(Concat(groups), text0))
  {
    EditsSinceBoundary(groups, first, r, k);
    ConcatSplit(groups[..k], groups[k..]);
    assert groups[..k] + groups[k..] == groups;
    ApplyAllConcat(Concat(groups[..k]), Concat(groups[k..]), text0);
  }

  /** For every other base version inside a retained group the answer is too
      long: the edits returned are the ones after `base` exactly when `base` is
      a group boundary. */
  lemma ExactOnlyOnBoundaries(groups: seq<Group>, first: nat, r: nat, k: nat, base: nat)
    requires Versioned(groups, first) && r <= k < |groups|
    requires VersionAfter(groups, k, first) <= base < VersionAfter(groups, k + 1, first)
    ensures EditsSince(groups[r..], base) == Some(Concat(groups[k..]))
    ensures first <= base <= first + |Concat(groups)|
    ensures EditsSince(groups[r..], base) == Some(Concat(groups)[base - first..]) <==>
            base == VersionAfter(groups, k, first)
  {
    AnswerInsideGroup(groups, first, r, k, base);
    EditsFromGroup(groups, first, k);
    VersionsAscend(groups, first, k + 1, |groups|);
    VersionIsEditCount(groups, first, |groups|);
    assert groups[..|groups|] == groups;
  }

  lemma AnswerInsideGroup(groups: seq<Group>, first: nat, r: nat, k: nat, base: nat)
    requires Versioned(groups, first) && r <= k < |groups|
    requires VersionAfter(groups, k, first) <= base < VersionAfter(groups, k + 1, first)
    ensures EditsSince(groups[r..], base) == Some(Concat(groups[k..]))
  {
    OldestPre(groups, first, r);
    VersionsAscend(groups, first, r, k);
    NewerIsSuffix(groups, first, r, |groups|, k, base);
    assert groups[r..|groups|] == groups[r..] && groups[k..|groups|] == groups[k..];
  }

  /** The edits of the groups from `k` on are the last of all edits. */
  lemma EditsFromGroup(groups: seq<Group>, first: nat, k: nat)
    requires Versioned(groups, first) && k <= |groups|
    ensures var done: int := VersionAfter(groups, k, first) - first;
            0 <= done <= |Concat(groups)| && Concat(groups)[done..] == Concat(groups[k..])
  {
    VersionIsEditCount(groups, first, k);
    ConcatSplit(groups[..k], groups[k..]);
    assert groups == groups[..k] + groups[k..];
  }

  /** When the first `r` groups are gone, by eviction or by `clear()`, the answer at the
      end of group `k` is the promised one exactly if the log is not empty or nothing
      was pushed since: an empty log tells older versions that nothing happened. */
  lemma {:induction false} ClearedLogHidesHistory(groups: seq<Group>, first: nat, r: nat, k: nat)
    requires Versioned(groups, first) && r <= |groups| && k <= |groups|
    ensures EditsSince(groups[r..], VersionAfter(groups, k, first))
            == (if k < r then None else Some(Concat(groups[k..])))
            <==> r < |groups| || k == |groups|
  {
    if r < |groups| {
      EditsSinceBoundary(groups, first, r, k);
    }
  }

  /** Whatever happened before the oldest group a log goes back to, with or without
      version gaps: an older version is refused exactly if the log is not empty. */
  lemma {:induction false} OlderIsRefusedUnlessEmpty(groups: seq<Group>, first: nat, r: nat, base: nat)
    requires Versioned(groups, first) && r <= |groups| && base < first
    ensures EditsSince(groups[r..], base) == if r < |groups| then None else Some([])
  {
    if r < |groups| {
      OldestPre(groups, first, r);
      VersionsAscend(groups, first, 0, r);
    }
  }
}

/** The edit log as it drops and appends entries (ovim-core/src/edit_log.rs). */
module EditLogs {
  import opened Basics
  import opened Edits
  import Q = EditLogQueries
  import opened EditLogQueries

  class EditLog {
    var entries: seq<Group>
    const capacity: nat
    /** Every group pushed since the log was created; of these the first `gone` are no
        longer held, the first `cleared` because of a clear. */
    ghost var history: seq<Group>
    ghost var gone: nat
    ghost var cleared: nat

    ghost predicate Valid()
      reads this
    {
      capacity >= 1 && |entries| <= capacity && cleared <= gone <= |history| &&
      entries == history[gone..] &&
      (gone > cleared ==> |entries| == capacity)
    }

    constructor WithCapacity(capacity: nat)
      ensures Valid() && history == [] && gone == cleared == 0
      ensures this.capacity == if capacity >= 1 then capacity else 1
    {
      this.capacity := if capacity >= 1 then capacity else 1;
      entries, history, gone, cleared := [], [], 0, 0;
    }

    method Push(postVersion: nat, edits: seq<Edit>)
      requires Valid()
      modifies this
      ensures Valid() && cleared == old(cleared)
      ensures edits == [] ==> history == old(history) && entries == old(entries) && gone == old(gone)
      ensures edits != [] ==> history == old(history) + [Group(postVersion, edits)]
      ensures edits != [] ==> gone == old(gone) + if |old(entries)| == capacity then 1 else 0
    {
      if edits == [] {
        return;
      }
      if |entries| == capacity {
        entries := entries[1..];
        gone := gone + 1;
      }
      entries := entries + [Group(postVersion, edits)];
      history := history + [Group(postVersion, edits)];
    }

    /** Whatever was pushed, evicted and cleared before: asked at the end version of a
        group pushed since the last clear, the log answers with all later edits, or with
        `None` when one of the later groups was evicted. Versions before the clear are
        refused exactly while the log is not empty; and if no version was skipped at the
        clear, the answer is exact for every group end exactly then or at the newest. */
    method EditsSince(base: nat) returns (r: Option<seq<Edit>>)
      requires Valid()
      ensures r == Q.EditsSince(entries, base)
      ensures gone == if |history| - cleared > capacity then |history| - capacity else cleared
      ensures forall first: nat, k: nat ::
                k <= |history| - cleared && Versioned(history[cleared..], first) &&
                base == VersionAfter(history[cleared..], k, first)
                ==> r == if cleared + k < gone then None else Some(Concat(history[cleared + k..]))
      ensures forall first: nat :: Versioned(history[cleared..], first) && base < first
                ==> r == if entries != [] then None else Some([])
      ensures forall first: nat, k: nat :: k <= |history| && Versioned(history, first) &&
                base == VersionAfter(history, k, first)
                ==> (r == (if k < gone then None else Some(Concat(history[k..]))) <==> entries != [] || k == |history|)
    {
      AnswersSince(entries, history, gone, cleared, base);
      if entries == [] {
        return Some([]);
      }
      var oldestPre := SaturatingSub(entries[0].postVersion, |entries[0].edits|);
      if base < oldestPre {
        return None;
      }
      var out := Collect(entries, base);
      return Some(out);
    }

    method Clear()
      requires Valid()
      modifies this
      ensures Valid() && entries == [] && history == old(history) && gone == cleared == |history|
    {
      entries, gone, cleared := [], |history|, |history|;
    }
  }

  method Collect(entries: seq<Group>, base: nat) returns (out: seq<Edit>)
    ensures out == Newer(entries, base)
  {
    out := [];
    for i := 0 to |entries|
      invariant out == Newer(entries[..i], base)
    {
      assert entries[..i + 1][..i] == entries[..i];
      if entries[i].postVersion > base {
        for j := 0 to |entries[i].edits|
          invariant out == Newer(entries[..i], base) + entries[i].edits[..j]
        {
          out := out + [entries[i].edits[j]];
        }
      }
    }
    assert entries[..|entries|] == entries;
  }

  /** What the answers of a log mean in terms of everything ever pushed to it. */
  lemma {:induction false} AnswersSince(entries: seq<Group>, history: seq<Group>, gone: nat, cleared: nat, base: nat)
    requires cleared <= gone <= |history| && entries == history[gone..] && (gone > cleared ==> entries != [])
    ensures forall first: nat, k: nat ::
              k <= |history| - cleared && Versioned(history[cleared..], first) &&
              base == VersionAfter(history[cleared..], k, first)
              ==> Q.EditsSince(entries, base)
                  == if cleared + k < gone then None else Some(Concat(history[cleared + k..]))
    ensures forall first: nat :: Versioned(history[cleared..], first) && base < first
              ==> Q.EditsSince(entries, base) == if entries != [] then None else Some([])
    ensures forall first: nat, k: nat :: k <= |history| && Versioned(history, first) &&
              base == VersionAfter(history, k, first)
              ==> (Q.EditsSince(entries, base) == (if k < gone then None else Some(Concat(history[k..]))) <==>
                   entries != [] || k == |history|)
  {
    var tail := history[cleared..];
    assert tail[gone - cleared..] == entries;
    forall first: nat, k: nat | k <= |tail| && Versioned(tail, first) && base == VersionAfter(tail, k, first)
      ensures Q.EditsSince(entries, base) == if cleared + k < gone then None else Some(Concat(history[cleared + k..]))
    {
      assert tail[k..] == history[cleared + k..];
      ClearedLogHidesHistory(tail, first, gone - cleared, k);
    }
    forall first: nat | Versioned(tail, first) && base < first
      ensures Q.EditsSince(entries, base) == if entries != [] then None else Some([])
    {
      OlderIsRefusedUnlessEmpty(tail, first, gone - cleared, base);
    }
    forall first: nat, k: nat | k <= |history| && Versioned(history, first) && base == VersionAfter(history, k, first)
      ensures Q.EditsSince(entries, base) == (if k < gone then None else Some(Concat(history[k..])))
              <==> entries != [] || k == |history|
    {
      ClearedLogHidesHistory(history, first, gone, k);
    }
  }
}
