/** The replicated log of a nidus node (nidus/log.py): log entries, the follower-side
    consistency check on `prev_index`/`prev_term`, and the splice that installs a leader's
    entries. Indices are 0-based; `prev_index == -1` stands for "before the first entry". */
module Log {
  import opened Common

  /** A log entry. Python compares two entries by term and item, as datatype equality does. */
  datatype LogEntry = LogEntry(term: int, item: Command)

  /** The Python list that holds a node's log. The functions of this module mutate it in
      place (`append`, `pop`), so it is an object whose contents the methods reassign. */
  class EntryList {
    var items: seq<LogEntry>

    constructor (initial: seq<LogEntry>)
      ensures items == initial
    {
      items := initial;
    }
  }

  /** The consistency check of `append_entries`: the log holds an entry at `prevIndex` whose
      term is `prevTerm`, or `prevIndex` is -1, where any `prevTerm` is accepted. */
  predicate Accepts(log: seq<LogEntry>, prevIndex: int, prevTerm: int)
    requires prevIndex >= -1
  {
    prevIndex < |log| && (prevIndex == -1 || log[prevIndex].term == prevTerm)
  }

  /** The log after a successful `append_entries`: everything up to and including
      `prevIndex` is kept, everything after it is dropped, and `entries` follow. */
  function Spliced(log: seq<LogEntry>, prevIndex: int, entries: seq<LogEntry>): seq<LogEntry>
    requires -1 <= prevIndex < |log|
  {
    log[..prevIndex + 1] + entries
  }

  /** `clear_upto(log, upto)`: pops from the end until at most `upto` entries remain.
      A negative `upto` would pop from an empty list, which raises IndexError. */
  method ClearUpto(log: EntryList, upto: int)
    requires upto >= 0
    modifies log
    ensures log.items == old(log.items)[..Min(|old(log.items)|, upto)]
  {
    while |log.items| > upto
      invariant Min(|old(log.items)|, upto) <= |log.items| <= |old(log.items)|
      invariant log.items == old(log.items)[..|log.items|]
      decreases |log.items|
    {
      log.items := log.items[..|log.items| - 1];
    }
  }

  /** `apply_all_entries`: drops the entries after `prevIndex`, then writes `entries` one by
      one behind it. Because the drop comes first, the log always has exactly
      `prevIndex + i` entries when entry number `i` (counting from 1) is written, so the
      branch that overwrites an existing entry (nidus/log.py:41-45) is never taken. */
  method ApplyAllEntries(log: EntryList, prevIndex: int, entries: seq<LogEntry>)
    requires -1 <= prevIndex < |log.items|
    modifies log
    ensures log.items == Spliced(old(log.items), prevIndex, entries)
  {
    if |log.items| > prevIndex + 1 {
      ClearUpto(log, prevIndex + 1);
    }
    for i := 1 to |entries| + 1
      invariant log.items == old(log.items)[..prevIndex + 1] + entries[..i - 1]
    {
      var entry := entries[i - 1];
      if |log.items| > prevIndex + i {
        assert false;
      } else {
        log.items := log.items + [entry];
      }
    }
  }

  /** `append_entries(log, prev_index, prev_term, entries)`: succeeds exactly when the
      consistency check passes, and then splices `entries` in after `prevIndex`; on failure
      the log is untouched. A `prevIndex` below -1 would index the list from its end. */
  method AppendEntries(log: EntryList, prevIndex: int, prevTerm: int, entries: seq<LogEntry>)
    returns (success: bool)
    requires prevIndex >= -1
    modifies log
    ensures success == Accepts(old(log.items), prevIndex, prevTerm)
    ensures log.items == if success then Spliced(old(log.items), prevIndex, entries) else old(log.items)
    ensures prevIndex >= |old(log.items)| ==> !success && log.items == old(log.items)
    ensures prevIndex == -1 ==> success && log.items == entries
    ensures 0 <= prevIndex < |old(log.items)| && old(log.items)[prevIndex].term != prevTerm ==>
              !success && log.items == old(log.items)
    ensures success ==> |log.items| == prevIndex + 1 + |entries|
                        && log.items[..prevIndex + 1] == old(log.items)[..prevIndex + 1]
                        && log.items[prevIndex + 1..] == entries
  {
    if prevIndex >= |log.items| {
      return false;
    }
    if prevIndex == -1 {
      ApplyAllEntries(log, prevIndex, entries);
      return true;
    } else if |log.items| > prevIndex && log.items[prevIndex].term == prevTerm {
      ApplyAllEntries(log, prevIndex, entries);
      return true;
    }
    return false;
  }

  /** Repeating a successful `append_entries` with the same arguments succeeds again and
      leaves the log as the first call left it: the call is idempotent. */
  lemma AppendEntriesIdempotent(log: seq<LogEntry>, prevIndex: int, prevTerm: int, entries: seq<LogEntry>)
    requires prevIndex >= -1 && Accepts(log, prevIndex, prevTerm)
    ensures Accepts(Spliced(log, prevIndex, entries), prevIndex, prevTerm)
    ensures Spliced(Spliced(log, prevIndex, entries), prevIndex, entries) == Spliced(log, prevIndex, entries)
  {
    var once := Spliced(log, prevIndex, entries);
    assert once[..prevIndex + 1] == log[..prevIndex + 1];
    if prevIndex >= 0 {
      assert once[prevIndex] == log[prevIndex];
    }
  }
}
