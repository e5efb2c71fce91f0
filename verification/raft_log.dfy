/**
 The log operations inside `appendEntries` (src/raft.ts): the consistency check
 on `prevLogIndex`/`prevLogTerm` and the loop that writes the incoming entries,
 truncating at a term conflict. `MergeSpec` is an independent statement of the
 Raft rule ("keep matching entries, cut at the first conflict, append the rest")
 and `MergeIsSpec` proves the loop implements it.
 */
module RaftLog {
  import opened RaftState

  /** Result of the check at src/raft.ts:162-163. `Undefined` is the case where
      the program evaluates `log[prevLogIndex].term` one past the end of the log,
      which raises a TypeError. */
  datatype Check = Consistent | Inconsistent | Undefined

  /** The local log does not contain the leader's previous entry. */
  predicate Mismatch(log: seq<Entry>, prevLogIndex: int, prevLogTerm: int)
  {
    || |log| < prevLogIndex
    || (0 <= prevLogIndex < |log| && log[prevLogIndex].term != prevLogTerm)
  }

  function ConsistencyCheck(log: seq<Entry>, prevLogIndex: int, prevLogTerm: int): (c: Check)
    ensures c == Undefined <==> 0 <= prevLogIndex == |log|
    ensures c == Inconsistent <==> Mismatch(log, prevLogIndex, prevLogTerm)
    ensures c == Consistent ==> prevLogIndex < |log|
    ensures c == Consistent && 0 <= prevLogIndex ==> log[prevLogIndex].term == prevLogTerm
  {
    if |log| < prevLogIndex then Inconsistent
    else if prevLogIndex >= 0 && prevLogIndex == |log| then Undefined
    else if prevLogIndex >= 0 && log[prevLogIndex].term != prevLogTerm then Inconsistent
    else Consistent
  }

  /** The loop at src/raft.ts:169-178, writing `entries` from index `start`
      (= prevLogIndex + 1). An existing entry with the incoming term is kept as
      it is (its command is not compared); one with another term is cut off
      together with everything after it. */
  function Merge(log: seq<Entry>, start: nat, entries: seq<Entry>): (r: seq<Entry>)
    requires start <= |log|
    ensures |r| >= start + |entries|
    ensures r[..start] == log[..start]
    ensures forall i :: 0 <= i < |entries| ==> r[start + i].term == entries[i].term
    decreases |entries|
  {
    if entries == [] then log
    else
      var next :=
        if start < |log| then
          (if log[start].term != entries[0].term then log[..start] + [entries[0]] else log)
        else log + [entries[0]];
      var r := Merge(next, start + 1, entries[1..]);
      assert r[..start] == log[..start] && forall i :: 0 <= i < |entries| ==> r[start + i].term == entries[i].term by {
        assert next[..start] == log[..start];
        MergeStep(log, next, r, start, entries);
      }
      r
  }

  /** One turn of the loop: the rest of the entries written into `next` (the
      log after the first entry was placed) gives a log that carries every
      entry's term from `start` on and keeps the log before `start`. */
  lemma MergeStep(log: seq<Entry>, next: seq<Entry>, r: seq<Entry>, start: nat, entries: seq<Entry>)
    requires entries != [] && start < |next| && start <= |log|
    requires next[..start] == log[..start] && next[start].term == entries[0].term
    requires |r| >= start + |entries| && r[..start + 1] == next[..start + 1]
    requires forall i :: 0 <= i < |entries[1..]| ==> r[start + 1 + i].term == entries[1..][i].term
    ensures r[..start] == log[..start]
    ensures forall i :: 0 <= i < |entries| ==> r[start + i].term == entries[i].term
  {
    assert r[..start] == r[..start + 1][..start];
    assert r[start] == r[..start + 1][start];
    forall i | 0 <= i < |entries|
      ensures r[start + i].term == entries[i].term
    {
      if i > 0 {
        assert entries[1..][i - 1] == entries[i];
      }
    }
  }

  /** How many leading incoming entries already sit in the log with their terms. */
  function FirstConflict(log: seq<Entry>, start: nat, entries: seq<Entry>): (k: nat)
    ensures k <= |entries|
    ensures k == 0 || start + k <= |log|
    ensures forall i :: 0 <= i < k ==> start + i < |log| && log[start + i].term == entries[i].term
    ensures k < |entries| ==> start + k >= |log| || log[start + k].term != entries[k].term
    decreases |entries|
  {
    if entries != [] && start < |log| && log[start].term == entries[0].term then
      1 + FirstConflict(log, start + 1, entries[1..])
    else 0
  }

  /** Reference definition: when every incoming entry is already present the
      log is untouched (including anything after it); otherwise it is cut at the
      first conflict and the remaining incoming entries are appended. */
  function MergeSpec(log: seq<Entry>, start: nat, entries: seq<Entry>): seq<Entry>
    requires start <= |log|
  {
    var k := FirstConflict(log, start, entries);
    if k == |entries| then log else log[..start + k] + entries[k..]
  }

  /** Writing at the end of the log appends every entry. */
  lemma {:induction false} MergeAtEnd(log: seq<Entry>, entries: seq<Entry>)
    ensures Merge(log, |log|, entries) == log + entries
    decreases |entries|
  {
    if entries != [] {
      var next := log + [entries[0]];
      assert Merge(log, |log|, entries) == Merge(next, |next|, entries[1..]);
      MergeAtEnd(next, entries[1..]);
      PushFirst(log, entries);
    }
  }

  /** Pushing the first entry and then the rest is appending them all. */
  lemma PushFirst(log: seq<Entry>, entries: seq<Entry>)
    requires entries != []
    ensures log + [entries[0]] + entries[1..] == log + entries
  {
    assert [entries[0]] + entries[1..] == entries;
  }

  /** The loop implements the Raft rule. */
  lemma {:induction false} MergeIsSpec(log: seq<Entry>, start: nat, entries: seq<Entry>)
    requires start <= |log|
    ensures Merge(log, start, entries) == MergeSpec(log, start, entries)
    decreases |entries|
  {
    if entries == [] {
    } else if start < |log| && log[start].term == entries[0].term {
      MergeIsSpec(log, start + 1, entries[1..]);
      MergeSkipsMatch(log, start, entries);
      MergeSpecSkipsMatch(log, start, entries);
    } else {
      MergeAtConflict(log, start, entries);
    }
  }

  /** A matching first entry is skipped by the loop. */
  lemma MergeSkipsMatch(log: seq<Entry>, start: nat, entries: seq<Entry>)
    requires start < |log| && entries != [] && log[start].term == entries[0].term
    ensures Merge(log, start, entries) == Merge(log, start + 1, entries[1..])
  {
  }

  /** At the first conflict (or past the end) the loop cuts the log there and
      appends every remaining entry, as the reference definition does. */
  lemma MergeAtConflict(log: seq<Entry>, start: nat, entries: seq<Entry>)
    requires start <= |log| && entries != []
    requires start == |log| || log[start].term != entries[0].term
    ensures Merge(log, start, entries) == MergeSpec(log, start, entries)
  {
    var cut := if start < |log| then log[..start] + [entries[0]] else log + [entries[0]];
    assert Merge(log, start, entries) == Merge(cut, start + 1, entries[1..]);
    MergeAtEnd(cut, entries[1..]);
    CutThenRest(log, start, entries);
    assert FirstConflict(log, start, entries) == 0;
    assert entries[0..] == entries;
  }

  /** Cutting the log at `start`, pushing the first entry and appending the
      rest is cutting and appending them all. */
  lemma CutThenRest(log: seq<Entry>, start: nat, entries: seq<Entry>)
    requires start <= |log| && entries != []
    ensures (if start < |log| then log[..start] + [entries[0]] else log + [entries[0]]) + entries[1..] == log[..start] + entries
  {
    if start == |log| {
      assert log[..start] == log;
    }
    PushFirst(log[..start], entries);
  }

  /** A matching first entry is skipped by the reference definition too. */
  lemma MergeSpecSkipsMatch(log: seq<Entry>, start: nat, entries: seq<Entry>)
    requires start < |log| && entries != [] && log[start].term == entries[0].term
    ensures MergeSpec(log, start, entries) == MergeSpec(log, start + 1, entries[1..])
  {
    var k' := FirstConflict(log, start + 1, entries[1..]);
    assert FirstConflict(log, start, entries) == k' + 1;
    if k' < |entries[1..]| {
      assert entries[1..][k'..] == entries[k' + 1..];
    }
  }

  /** Re-delivering the same entries leaves the log as the first delivery left it. */
  lemma MergeIdempotent(log: seq<Entry>, start: nat, entries: seq<Entry>)
    requires start <= |log|
    ensures Merge(Merge(log, start, entries), start, entries) == Merge(log, start, entries)
  {
    var once := Merge(log, start, entries);
    MergeIsSpec(once, start, entries);
    assert FirstConflict(once, start, entries) == |entries|;
  }

  /** Entries are cut only at a conflict: when every incoming entry is already
      present with its term, the log is left exactly as it was. */
  lemma MergeKeepsMatchingLog(log: seq<Entry>, start: nat, entries: seq<Entry>)
    requires start + |entries| <= |log|
    requires forall i :: 0 <= i < |entries| ==> log[start + i].term == entries[i].term
    ensures Merge(log, start, entries) == log
  {
    MergeIsSpec(log, start, entries);
    assert FirstConflict(log, start, entries) == |entries|;
  }
}
