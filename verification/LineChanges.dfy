/** The bounded history of row splices (ovim-core/src/text_index.rs). */
module LineChanges {
  import opened Basics
  import opened Lines

  const HISTORY: nat := 256

  /** `oldCount` rows at `startLine` became `newCount` rows. */
  datatype LineChange = LineChange(version: nat, startLine: nat, oldCount: nat, newCount: nat)

  /** The change describes exactly which rows differ. */
  ghost predicate RowSplice(before: string, after: string, c: LineChange) {
    var b, a := Split(before), Split(after);
    c.startLine + c.oldCount <= |b| && |a| == |b| - c.oldCount + c.newCount &&
    (forall k: nat :: k < c.startLine ==> a[k] == b[k]) &&
    (forall k: nat :: c.startLine + c.oldCount <= k < |b| ==> a[k - c.oldCount + c.newCount] == b[k])
  }

  /** `texts[v]` is the text at version `v`. The changes account for every version
      after `version`: each is an exact row splice, and between them nothing moved. */
  ghost predicate Records(texts: seq<string>, changes: seq<LineChange>, version: nat)
    decreases |changes|
  {
    version < |texts| &&
    if changes == [] then forall w: nat :: version <= w < |texts| ==> texts[w] == texts[version]
    else
      var c := changes[0];
      version < c.version < |texts| &&
      (forall w: nat :: version <= w < c.version ==> texts[w] == texts[version]) &&
      RowSplice(texts[version], texts[c.version], c) && Records(texts, changes[1..], c.version)
  }

  /** A change at a new version extends the record. */
  lemma {:induction false} RecordsPush(texts: seq<string>, changes: seq<LineChange>, version: nat, after: string,
                                       c: LineChange)
    requires Records(texts, changes, version) && c.version == |texts|
    requires RowSplice(texts[|texts| - 1], after, c)
    ensures Records(texts + [after], changes + [c], version)
    decreases |changes|
  {
    if changes == [] {
      assert [c][1..] == [];
    } else {
      RecordsPush(texts, changes[1..], changes[0].version, after, c);
      assert (changes + [c])[1..] == changes[1..] + [c];
    }
  }

  /** A version bump that leaves the text alone extends it with nothing. */
  lemma {:induction false} RecordsBump(texts: seq<string>, changes: seq<LineChange>, version: nat)
    requires Records(texts, changes, version)
    ensures Records(texts + [texts[|texts| - 1]], changes, version)
    decreases |changes|
  {
    if changes != [] {
      RecordsBump(texts, changes[1..], changes[0].version);
    }
  }

  function After(changes: seq<LineChange>, version: nat): seq<LineChange> {
    if changes == [] then []
    else if changes[0].version > version then [changes[0]] + After(changes[1..], version)
    else After(changes[1..], version)
  }

  lemma {:induction false} AllAfter(texts: seq<string>, changes: seq<LineChange>, from: nat, version: nat)
    requires Records(texts, changes, from) && version <= from
    ensures After(changes, version) == changes
    decreases |changes|
  {
    if changes != [] {
      AllAfter(texts, changes[1..], changes[0].version, version);
    }
  }

  /** Dropping the changes up to a version leaves the record from that version. */
  lemma {:induction false} RecordsAfter(texts: seq<string>, changes: seq<LineChange>, from: nat, version: nat)
    requires Records(texts, changes, from) && from <= version < |texts|
    ensures Records(texts, After(changes, version), version)
    decreases |changes|
  {
    if changes != [] {
      if changes[0].version > version {
        AllAfter(texts, changes[1..], changes[0].version, version);
      } else {
        RecordsAfter(texts, changes[1..], changes[0].version, version);
      }
    }
  }

  // ----- following rows through a history ------------------------------------------------

  /** Where each row of a text came from; None for a row that was rewritten. */
  function Untouched(n: nat): (rows: seq<Option<nat>>)
    ensures |rows| == n && forall k :: 0 <= k < n ==> rows[k] == Some(k)
  {
    seq(n, k => Some(k))
  }

  function Rewritten(n: nat): (rows: seq<Option<nat>>)
    ensures |rows| == n && forall k :: 0 <= k < n ==> rows[k] == None
  {
    seq(n, k => None)
  }

  function Follow(rows: seq<Option<nat>>, changes: seq<LineChange>): seq<Option<nat>>
    decreases |changes|
  {
    if changes == [] then rows
    else
      var c := changes[0];
      if c.startLine + c.oldCount > |rows| then []
      else Follow(rows[..c.startLine] + Rewritten(c.newCount) + rows[c.startLine + c.oldCount..], changes[1..])
  }

  /** Every row that claims an origin still holds that row's text. */
  ghost predicate Traced(rows: seq<Option<nat>>, origin: string, text: string) {
    |rows| == |Split(text)| &&
    forall k: nat :: k < |rows| && rows[k].Some? ==>
      rows[k].value < |Split(origin)| && Split(text)[k] == Split(origin)[rows[k].value]
  }

  lemma TracedStep(rows: seq<Option<nat>>, origin: string, before: string, after: string, c: LineChange)
    requires Traced(rows, origin, before) && RowSplice(before, after, c)
    ensures c.startLine + c.oldCount <= |rows|
    ensures Traced(rows[..c.startLine] + Rewritten(c.newCount) + rows[c.startLine + c.oldCount..], origin, after)
  {
    var next := rows[..c.startLine] + Rewritten(c.newCount) + rows[c.startLine + c.oldCount..];
    forall k: nat | k < |next| && next[k].Some?
      ensures next[k].value < |Split(origin)| && Split(after)[k] == Split(origin)[next[k].value]
    {
      if k >= c.startLine {
        var j := k - c.newCount + c.oldCount;
        assert k >= c.startLine + c.newCount && next[k] == rows[j];
        assert Split(after)[j - c.oldCount + c.newCount] == Split(before)[j];
      }
    }
  }

  lemma {:induction false} FollowTraced(texts: seq<string>, changes: seq<LineChange>, version: nat,
                                        rows: seq<Option<nat>>, origin: string)
    requires Records(texts, changes, version) && Traced(rows, origin, texts[version])
    ensures Traced(Follow(rows, changes), origin, texts[|texts| - 1])
    decreases |changes|
  {
    if changes != [] {
      var c := changes[0];
      TracedStep(rows, origin, texts[version], texts[c.version], c);
      FollowTraced(texts, changes[1..], c.version,
                   rows[..c.startLine] + Rewritten(c.newCount) + rows[c.startLine + c.oldCount..], origin);
    }
  }

  /** Rows followed through a recorded history are unchanged rows of the old text,
      and there are as many as the current text has. */
  lemma HistoryFollowsRows(texts: seq<string>, changes: seq<LineChange>, version: nat)
    requires Records(texts, changes, version)
    ensures Traced(Follow(Untouched(|Split(texts[version])|), changes), texts[version], texts[|texts| - 1])
  {
    FollowTraced(texts, changes, version, Untouched(|Split(texts[version])|), texts[version]);
  }

  class LineChangeLog {
    var changes: seq<LineChange>
    var baseVersion: nat

    constructor ()
      ensures changes == [] && baseVersion == 0
    {
      changes, baseVersion := [], 0;
    }

    /** The history never claims more than it holds, nor holds more than its bound. */
    ghost predicate Valid(texts: seq<string>)
      reads this
    {
      |changes| <= 256 && Records(texts, changes, baseVersion)
    }

    /** None exactly when the version predates the history or has not happened; and
        otherwise every change since it. */
    method Since(version: nat, current: nat, ghost texts: seq<string>) returns (r: Option<seq<LineChange>>)
      requires Valid(texts) && current == |texts| - 1
      ensures r.None? <==> version < baseVersion || version > current
      ensures r.Some? ==> Records(texts, r.value, version)
    {
      if version < baseVersion || version > current {
        return None;
      }
      RecordsAfter(texts, changes, baseVersion, version);
      return Some(After(changes, version));
    }

    method Reset(version: nat, ghost texts: seq<string>)
      requires version == |texts| - 1
      modifies this
      ensures Valid(texts) && baseVersion == version && changes == []
    {
      changes, baseVersion := [], version;
    }

    /** The oldest change is evicted when the history is full, and the base moves up
        to it; otherwise the base stays. */
    method Push(change: LineChange, ghost texts: seq<string>, ghost after: string)
      requires Valid(texts) && change.version == |texts| && RowSplice(texts[|texts| - 1], after, change)
      modifies this
      ensures Valid(texts + [after])
      ensures baseVersion == if |old(changes)| == 256 then old(changes)[0].version else old(baseVersion)
      ensures changes == (if |old(changes)| == 256 then old(changes)[1..] else old(changes)) + [change]
    {
      if |changes| == HISTORY {
        changes, baseVersion := changes[1..], changes[0].version;
      }
      RecordsPush(texts, changes, baseVersion, after, change);
      changes := changes + [change];
    }
  }
}
