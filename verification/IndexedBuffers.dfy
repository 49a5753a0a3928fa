/** A buffer that keeps line indexes and row-splice history beside its text
    (ovim-core/src/buffer/mod.rs, ovim-core/src/buffer/text_ops.rs). `Valid` holds
    after construction and after every operation, hence in every run. */
module IndexedBuffers {
  import opened Basics
  import opened Lines
  import opened Segments
  import opened LineIndexQueries
  import opened LineChanges
  import opened RowEdits
  import opened TextIndexCaches

  class IndexedBuffer {
    const u: Unicode
    const cache: TextIndexCache
    const log: LineChangeLog
    var text: string
    var version: nat
    /** The text at every version so far. */
    ghost var texts: seq<string>

    ghost predicate Valid()
      reads this, cache, cache.lines.Values, log
    {
      cache.u == u && cache.Valid(text) && log.Valid(texts) && |texts| == version + 1 && texts[version] == text
    }

    constructor (u: Unicode, text: string)
      requires Lawful(u)
      ensures Valid() && fresh(cache) && fresh(log) && this.text == text && version == 0
    {
      this.u, this.text, this.version, this.texts := u, text, 0, [text];
      cache := new TextIndexCache(u);
      log := new LineChangeLog();
    }

    /** The cache keeps the entries the edit leaves alone, and the history is longer by this
        edit, without its oldest change if it was full. */
    ghost predicate Reported(lines: map<nat, LineIndex>, changes: seq<LineChange>, base: nat, before: string,
                             start: nat,
                             end: nat, inserted: string, version: nat)
      requires start <= end <= |before|
      reads this, cache, log
    {
      var change := ChangeOf(before, start, end, inserted, version);
      EntriesFollow(lines, cache.lines, Prepare(before, start, end), change, inserted) &&
      log.changes == (if |changes| == HISTORY then changes[1..] else changes) + [change] &&
      log.baseVersion == if |changes| == HISTORY then changes[0].version else base
    }

    /** An insertion, a deletion, or both at once, by offsets. */
    method Edit(start: nat, end: nat, inserted: string)
      requires Valid() && start <= end <= |text|
      modifies this, cache`lines, log
      ensures Valid()
      ensures text == Splice(old(text), start, end, inserted) && version == old(version) + 1
      ensures texts == old(texts) + [text]
      ensures fresh(cache.lines.Values - old(cache.lines.Values))
      ensures Reported(old(cache.lines), old(log.changes), old(log.baseVersion), old(text), start, end, inserted,
                       version)
    {
      var after := Splice(text, start, end, inserted);
      Report(start, end, inserted, after);
      text, version := after, version + 1;
      texts := texts + [after];
    }

    /** Cache and history learn of the edit. */
    method Report(start: nat, end: nat, inserted: string, after: string)
      requires Valid() && start <= end <= |text| && after == Splice(text, start, end, inserted)
      modifies cache`lines, log
      ensures cache.Valid(after) && log.Valid(texts + [after])
      ensures fresh(cache.lines.Values - old(cache.lines.Values))
      ensures Reported(old(cache.lines), old(log.changes), old(log.baseVersion), text, start, end, inserted,
                       version + 1)
    {
      var edit := Prepare(text, start, end);
      EditIsRowSplice(text, start, end, inserted, version + 1);
      var change := cache.Edited(text, start, end, after, edit, inserted, version + 1);
      log.Push(change, texts, after);
    }

    /** A version bump without an edit. */
    method Touch()
      requires Valid()
      modifies this
      ensures Valid() && text == old(text) && version == old(version) + 1
      ensures texts == old(texts) + [text]
    {
      RecordsBump(texts, log.changes, log.baseVersion);
      version := version + 1;
      texts := texts + [text];
    }

    /** A replacement that cannot report an exact splice drops every entry and
        restarts the history. */
    method ReplaceAll(replacement: string)
      requires Valid()
      modifies this, cache`lines, log
      ensures Valid() && text == replacement && version == old(version) + 1
      ensures texts == old(texts) + [text]
      ensures cache.lines == map[] && log.changes == [] && log.baseVersion == version
    {
      text, version := replacement, version + 1;
      texts := texts + [replacement];
      cache.Clear(text);
      log.Reset(version, texts);
    }

    /** A line's index is always the index of the current line. */
    method LineIndexAt(line: nat) returns (index: LineIndex)
      requires Valid()
      modifies cache`lines
      ensures Valid() && Current(u, index, Row(text, line))
      ensures cache.lines == old(cache.lines)[line := index]
      ensures line in old(cache.lines) ==> index == old(cache.lines)[line]
    {
      index := cache.Lookup(text, line);
    }

    /** None or a complete history: following rows through it finds, for every row
        it does not report as rewritten, the very row of the text at that version. */
    method LineChangesSince(since: nat) returns (r: Option<seq<LineChange>>)
      requires Valid()
      ensures r.None? <==> since < log.baseVersion || since > version
      ensures r.Some? ==> Records(texts, r.value, since)
      ensures r.Some? ==> Traced(Follow(Untouched(|Split(texts[since])|), r.value), texts[since], text)
    {
      r := log.Since(since, version, texts);
      if r.Some? {
        HistoryFollowsRows(texts, r.value, since);
      }
    }
  }
}
