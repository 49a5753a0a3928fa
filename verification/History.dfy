/** What undo, redo, grouping, save points and change tokens do to a document
    and its history (ovim-core/src/change.rs), as functions on values. */
module History {
  import opened Basics
  import opened Edits

  /** A path of the file system whose snapshot an undo step restores. */
  type Path = nat

  datatype Change =
    | Recorded(edits: seq<Edit>, group: Option<int>)
    | ResourceOp(paths: seq<Path>)
  {
    function UndoGroup(): Option<int> {
      if Recorded? then group else None
    }

    /** `fails` holds the paths that cannot be restored at this moment. */
    predicate Restorable(fails: set<Path>) {
      ResourceOp? ==> forall p :: p in paths ==> p !in fails
    }

    /** The text after applying the change; a resource operation has none. */
    function Forward(s: string): string {
      if Recorded? then ApplyAll(edits, s) else s
    }

    function Backward(s: string): string {
      if Recorded? then UndoAll(edits, s) else s
    }

    /** Leads from text `a` to text `b`, as it was recorded. */
    predicate Leads(a: string, b: string) {
      Forward(a) == b && (Recorded? ==> AllRecordedOn(edits, a))
    }

    /** What a buffer holds after `Forward`, or after refusing all of it. */
    function ForwardIf(accepted: bool, s: string): string {
      if accepted then Forward(s) else s
    }

    function BackwardIf(accepted: bool, s: string): string {
      if accepted then Backward(s) else s
    }

    /** Succeeds also when the buffer has refused every edit. */
    method ApplyTo(buffer: Buffer, fails: set<Path>) returns (ok: bool)
      modifies buffer`text
      ensures ok == Restorable(fails)
      ensures ok <==> Recorded? || forall k :: 0 <= k < |paths| ==> paths[k] !in fails
      ensures buffer.text == ForwardIf(ok && buffer.modifiable, old(buffer.text))
    {
      if this.Recorded? {
        ghost var start := buffer.text;
        for i := 0 to |edits|
          invariant buffer.text == if buffer.modifiable then ApplyAll(edits[..i], start) else start
        {
          edits[i].ApplyTo(buffer);
          assert edits[..i + 1][..i] == edits[..i];
        }
        assert edits[..|edits|] == edits;
        return true;
      }
      for i := 0 to |paths|
        invariant forall k :: 0 <= k < i ==> paths[k] !in fails
      {
        if paths[i] in fails {
          return false;
        }
      }
      return true;
    }

    method UndoOn(buffer: Buffer, fails: set<Path>) returns (ok: bool)
      modifies buffer`text
      ensures ok == Restorable(fails)
      ensures ok <==> Recorded? || forall k :: 0 <= k < |paths| ==> paths[k] !in fails
      ensures buffer.text == BackwardIf(ok && buffer.modifiable, old(buffer.text))
    {
      if this.Recorded? {
        ghost var start := buffer.text;
        assert edits[..|edits|] == edits;
        for i := |edits| downto 0
          invariant buffer.modifiable ==> UndoAll(edits[..i], buffer.text) == UndoAll(edits, start)
          invariant !buffer.modifiable ==> buffer.text == start
        {
          assert edits[..i + 1][..i] == edits[..i];
          edits[i].Inverse().ApplyTo(buffer);
        }
        return true;
      }
      for i := |paths| downto 0
        invariant forall k :: i <= k < |paths| ==> paths[k] !in fails
      {
        if paths[i] in fails {
          return false;
        }
      }
      return true;
    }
  }

  datatype UndoEntry = UndoEntry(change: Change, seqNo: nat)

  datatype UndoOutcome = Nothing | Done | Failed

  /** The buffer's text and `modifiable` flag together with its change history. */
  datatype Doc = Doc(text: string, undo: seq<UndoEntry>, redo: seq<UndoEntry>, savePoint: Option<nat>, nextSeq: nat,
                     modifiable: bool)

  const MAX_U64: int := 0xFFFF_FFFF_FFFF_FFFF

  function NewDoc(text: string): Doc {
    Doc(text, [], [], Some(0), 1, true)
  }

  /** Sequence number of the undo-stack top; 0 is the empty stack. */
  function TopSeq(d: Doc): nat {
    if d.undo == [] then 0 else d.undo[|d.undo| - 1].seqNo
  }

  predicate AtSavePoint(d: Doc) {
    d.savePoint == Some(TopSeq(d))
  }

  function Push(d: Doc, change: Change): Doc {
    d.(undo := d.undo + [UndoEntry(change, d.nextSeq)], redo := [], nextSeq := d.nextSeq + 1)
  }

  /** The entries above `since`, from the top down, get one common group. */
  function Grouped(undo: seq<UndoEntry>, since: nat): (r: seq<UndoEntry>)
    ensures |r| == |undo|
    ensures forall k :: 0 <= k < |undo| ==> r[k].seqNo == undo[k].seqNo
    ensures forall k :: 0 <= k < |undo| ==>
              r[k].change == undo[k].change ||
              (undo[k].change.Recorded? && r[k].change == undo[k].change.(group := Some(MAX_U64 - since)))
  {
    if undo == [] || undo[|undo| - 1].seqNo <= since then undo
    else
      Grouped(undo[..|undo| - 1], since) + [Marked(undo[|undo| - 1], since)]
  }

  /** Only recorded changes carry a group. */
  function Marked(entry: UndoEntry, since: nat): UndoEntry {
    entry.(change := if entry.change.Recorded? then entry.change.(group := Some(MAX_U64 - since)) else entry.change)
  }

  /** One entry moves from the undo to the redo stack, also when the buffer refuses
      to change its text. */
  function UndoTop(d: Doc): Doc
    requires d.undo != []
  {
    var top := d.undo[|d.undo| - 1];
    d.(text := top.change.BackwardIf(d.modifiable, d.text), undo := d.undo[..|d.undo| - 1], redo := d.redo + [top])
  }

  function RedoTop(d: Doc): Doc
    requires d.redo != []
  {
    var top := d.redo[|d.redo| - 1];
    d.(text := top.change.ForwardIf(d.modifiable, d.text), undo := d.undo + [top], redo := d.redo[..|d.redo| - 1])
  }

  function TopGroup(stack: seq<UndoEntry>): Option<int> {
    if stack == [] then None else stack[|stack| - 1].change.UndoGroup()
  }

  /** The rest of group `g`, while it is on top of the undo stack. */
  function UndoGroup(d: Doc, g: int, fails: set<Path>): (Doc, UndoOutcome)
    decreases |d.undo|
  {
    if TopGroup(d.undo) != Some(g) then (d, Done)
    else if !d.undo[|d.undo| - 1].change.Restorable(fails) then (d, Failed)
    else UndoGroup(UndoTop(d), g, fails)
  }

  function RedoGroup(d: Doc, g: int, fails: set<Path>): (Doc, UndoOutcome)
    decreases |d.redo|
  {
    if TopGroup(d.redo) != Some(g) then (d, Done)
    else if !d.redo[|d.redo| - 1].change.Restorable(fails) then (d, Failed)
    else RedoGroup(RedoTop(d), g, fails)
  }

  function Undo(d: Doc, fails: set<Path>): (Doc, UndoOutcome) {
    if d.undo == [] then (d, Nothing)
    else if !d.undo[|d.undo| - 1].change.Restorable(fails) then (d, Failed)
    else
      match TopGroup(d.undo)
      case None => (UndoTop(d), Done)
      case Some(g) => UndoGroup(UndoTop(d), g, fails)
  }

  function Redo(d: Doc, fails: set<Path>): (Doc, UndoOutcome) {
    if d.redo == [] then (d, Nothing)
    else if !d.redo[|d.redo| - 1].change.Restorable(fails) then (d, Failed)
    else
      match TopGroup(d.redo)
      case None => (RedoTop(d), Done)
      case Some(g) => RedoGroup(RedoTop(d), g, fails)
  }

  function PopByToken(d: Doc, token: nat): (Doc, Option<Change>) {
    if TopSeq(d) == token && token != 0
    then (d.(undo := d.undo[..|d.undo| - 1]), Some(d.undo[|d.undo| - 1].change))
    else (d, None)
  }
}
