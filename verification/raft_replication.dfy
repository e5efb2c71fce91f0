/**
 Log replication in `RaftNode` (src/raft.ts): the `appendEntries` handler, the
 leader's heartbeat and its reply callback, the step-down timer, and the client
 write path `clientRequest` with its replication callback.

 The replication callback closes over a `replicatedCount` that belongs to one
 `clientRequest` call; it is passed in and handed back explicitly.
 */
module RaftReplication {
  import opened Wrappers
  import opened RaftState
  import opened RaftLog
  import RaftElection

  /** The state and callback reply of one `appendEntries`. */
  datatype Appended = Appended(step: Step, reply: Reply<AppendReply>)

  /** The state and the client callbacks fired by one `clientRequest`, in order. */
  datatype Submitted = Submitted(step: Step, acks: seq<bool>)

  /** The replication callback's result: the step, the updated
      `replicatedCount`, and the client callbacks it fired. */
  datatype Replicated = Replicated(step: Step, count: nat, acks: seq<bool>)

  /** The inputs on which `appendEntries` raises a TypeError instead of
      answering: `log[prevLogIndex]` one past the end (src/raft.ts:163), or a
      negative index read by the append loop (src/raft.ts:171). */
  predicate Throws(n: Node, a: AppendArgs)
  {
    && a.term >= n.currentTerm
    && (0 <= a.prevLogIndex == |n.log| || (a.prevLogIndex < -1 && a.entries != []))
  }

  /** The entries are in place: the log up to `start` is untouched, it is long
      enough, and every incoming entry's term sits at its index. */
  predicate Installed(log: seq<Entry>, log': seq<Entry>, start: nat, entries: seq<Entry>)
    requires start <= |log|
  {
    && |log'| >= start + |entries|
    && log'[..start] == log[..start]
    && forall i :: 0 <= i < |entries| ==> log'[start + i].term == entries[i].term
  }

  /** `applied` is what `applyLogEntries` emits when moving from `lastApplied`
      to `commit`: the entries strictly after the first up to and including
      the second, in index order, or nothing if it does not move. */
  predicate Emits(applied: seq<Entry>, log: seq<Entry>, lastApplied: int, commit: int)
  {
    if lastApplied < commit then
      -1 <= lastApplied && commit < |log| && applied == log[lastApplied + 1 .. commit + 1]
    else
      applied == []
  }

  /** The commit index a successful `appendEntries` leaves. */
  function NewCommitIndex(n: Node, a: AppendArgs): int
  {
    if a.leaderCommit > n.commitIndex then Min(a.leaderCommit, a.prevLogIndex + |a.entries|) else n.commitIndex
  }

  /** Steps taken by `appendEntries` for a current-or-newer term before the
      consistency check: re-arm the election timer, then step down to a newer term. */
  function Admit(n: Node, term: int): (r: Step)
    requires term >= n.currentTerm
    ensures r.node.currentTerm == term
    ensures term > n.currentTerm ==>
      && r.node == n.(role := Follower, currentTerm := term, votedFor := None)
      && r.timers == [ResetElectionTimer, ResetElectionTimer, StopHeartbeat, CancelStepDownTimer]
    ensures term == n.currentTerm ==> r == Step(n, [ResetElectionTimer], [], [])
    ensures r.node.log == n.log && r.node.commitIndex == n.commitIndex && r.node.lastApplied == n.lastApplied
    ensures r.sent == [] && r.applied == []
    ensures Valid(n) ==> Valid(r.node)
  {
    var reset := Step(n, [ResetElectionTimer], [], []);
    if term > n.currentTerm then Then(reset, BecomeFollower(n, term)) else reset
  }

  /** src/raft.ts:180-184: a larger `leaderCommit` moves `commitIndex` to
      `min(leaderCommit, lastNewIndex)` and applies up to it. */
  function Commit(n: Node, leaderCommit: int, lastNewIndex: int): (r: Step)
    requires lastNewIndex < |n.log|
    ensures leaderCommit <= n.commitIndex ==> r == Quiet(n)
    ensures leaderCommit > n.commitIndex ==>
      var c := Min(leaderCommit, lastNewIndex);
      && r.node == n.(commitIndex := c, lastApplied := Max(n.lastApplied, c))
      && Emits(r.applied, n.log, n.lastApplied, c)
    ensures r.timers == [] && r.sent == []
  {
    if leaderCommit > n.commitIndex then
      ApplyLogEntries(n.(commitIndex := Min(leaderCommit, lastNewIndex)))
    else
      Quiet(n)
  }

  /** The log after the loop at src/raft.ts:169-178: the entries are in
      place after `prevLogIndex` and the log up to it is untouched. */
  function Written(log: seq<Entry>, a: AppendArgs): (r: seq<Entry>)
    requires a.prevLogIndex < |log|
    requires a.prevLogIndex >= -1 || a.entries == []
    ensures a.prevLogIndex + |a.entries| < |r|
    ensures a.entries == [] ==> r == log
  {
    if a.entries == [] then log else Merge(log, a.prevLogIndex + 1, a.entries)
  }

  /** The written log holds the entries in place after `prevLogIndex` and is
      untouched up to it. */
  lemma WrittenInstalls(log: seq<Entry>, a: AppendArgs)
    requires -1 <= a.prevLogIndex < |log|
    ensures Installed(log, Written(log, a), a.prevLogIndex + 1, a.entries)
  {
    if a.entries != [] {
      assert Written(log, a) == Merge(log, a.prevLogIndex + 1, a.entries);
    }
  }

  /** The written log is the one the Raft rule prescribes: unchanged when
      every entry is already present with its term, otherwise cut at the first
      conflict and followed by the remaining entries. */
  lemma WrittenFollowsRaftRule(log: seq<Entry>, a: AppendArgs)
    requires -1 <= a.prevLogIndex < |log|
    ensures Written(log, a) == MergeSpec(log, a.prevLogIndex + 1, a.entries)
  {
    if a.entries == [] {
      assert FirstConflict(log, a.prevLogIndex + 1, a.entries) == 0;
    } else {
      assert Written(log, a) == Merge(log, a.prevLogIndex + 1, a.entries);
      MergeIsSpec(log, a.prevLogIndex + 1, a.entries);
    }
  }

  /** The success path of `appendEntries` (src/raft.ts:168-186), on a node
      whose log passed the consistency check: write the entries, then commit.
      Only the log, the commit index and `lastApplied` change. */
  function Accept(m: Node, a: AppendArgs): (r: Step)
    requires a.prevLogIndex < |m.log|
    requires a.prevLogIndex >= -1 || a.entries == []
    ensures r.node == m.(log := Written(m.log, a), commitIndex := NewCommitIndex(m, a), lastApplied := r.node.lastApplied)
    ensures r.node.lastApplied >= m.lastApplied
    ensures r.timers == [] && r.sent == []
  {
    Commit(m.(log := Written(m.log, a)), a.leaderCommit, a.prevLogIndex + |a.entries|)
  }

  /** The success path emits exactly the entries after `lastApplied` up to the
      new commit index, in index order, when `leaderCommit` moved it. */
  lemma AcceptApplies(m: Node, a: AppendArgs)
    requires a.prevLogIndex < |m.log|
    requires a.prevLogIndex >= -1 || a.entries == []
    ensures a.leaderCommit > m.commitIndex ==>
      var r := Accept(m, a);
      var c := NewCommitIndex(m, a);
      && c < |r.node.log|
      && r.node.lastApplied == Max(m.lastApplied, c)
      && Emits(r.applied, r.node.log, m.lastApplied, c)
    ensures a.leaderCommit <= m.commitIndex ==>
      Accept(m, a).node.lastApplied == m.lastApplied && Accept(m, a).applied == []
  {
    if a.leaderCommit > m.commitIndex {
      AcceptCommits(m, a);
    } else {
      assert Accept(m, a) == Quiet(m.(log := Written(m.log, a)));
    }
  }

  /** The success path with a larger `leaderCommit`, stated on the written log. */
  lemma AcceptCommits(m: Node, a: AppendArgs)
    requires a.prevLogIndex < |m.log|
    requires a.prevLogIndex >= -1 || a.entries == []
    requires a.leaderCommit > m.commitIndex
    ensures var log := Written(m.log, a);
      var c := Min(a.leaderCommit, a.prevLogIndex + |a.entries|);
      && c < |log|
      && NewCommitIndex(m, a) == c
      && Accept(m, a).node.log == log
      && Accept(m, a).node.lastApplied == Max(m.lastApplied, c)
      && Emits(Accept(m, a).applied, log, m.lastApplied, c)
  {
    var m' := m.(log := Written(m.log, a));
    assert Accept(m, a) == Commit(m', a.leaderCommit, a.prevLogIndex + |a.entries|);
  }

  /** `appendEntries` from the consistency check on (src/raft.ts:162-186),
      after the term checks have produced step `s`. */
  function Checked(s: Step, a: AppendArgs): (r: Appended)
    ensures r.reply == Threw <==>
      0 <= a.prevLogIndex == |s.node.log| || (a.prevLogIndex < -1 && a.entries != [])
    ensures r.reply.Answered? ==>
      r.reply.value == AppendReply(s.node.currentTerm, !Mismatch(s.node.log, a.prevLogIndex, a.prevLogTerm))
    ensures !(r.reply.Answered? && r.reply.value.success) ==> r.step == s
    ensures r.reply.Answered? && r.reply.value.success ==>
      && a.prevLogIndex < |s.node.log|
      && (a.prevLogIndex >= -1 || a.entries == [])
      && r.step == Then(s, Accept(s.node, a))
  {
    var m := s.node;
    match ConsistencyCheck(m.log, a.prevLogIndex, a.prevLogTerm)
    case Undefined => Appended(s, Threw)
    case Inconsistent => Appended(s, Answered(AppendReply(m.currentTerm, false)))
    case Consistent =>
      if a.prevLogIndex < -1 && a.entries != [] then Appended(s, Threw)
      else Appended(Then(s, Accept(m, a)), Answered(AppendReply(m.currentTerm, true)))
  }

  /** `appendEntries(args)`. A stale term is rejected with no change. The
      handler throws exactly on the inputs of `Throws`; otherwise it answers
      with the larger term, and succeeds iff the term is current or newer and
      the log holds the leader's previous entry. */
  function AppendEntries(n: Node, a: AppendArgs): (r: Appended)
    ensures a.term < n.currentTerm ==> r == Appended(Quiet(n), Answered(AppendReply(n.currentTerm, false)))
    ensures r.reply == Threw <==> Throws(n, a)
    ensures r.reply.Answered? ==> r.reply.value.term == Max(n.currentTerm, a.term)
    ensures r.reply.Answered? ==>
      (r.reply.value.success <==> a.term >= n.currentTerm && !Mismatch(n.log, a.prevLogIndex, a.prevLogTerm))
    ensures Valid(n) ==> Valid(r.step.node)
    ensures r.step.node.currentTerm >= n.currentTerm && r.step.node.lastApplied >= n.lastApplied
  {
    if a.term < n.currentTerm then
      Appended(Quiet(n), Answered(AppendReply(n.currentTerm, false)))
    else
      Checked(Admit(n, a.term), a)
  }

  /** A current or newer term re-arms the election timer before anything
      else and is adopted; a newer one also makes the node a Follower with no
      vote, while the same term keeps role and vote (a Candidate stays a
      Candidate). No RPC is emitted. */
  lemma AppendEntriesAdoptsTerm(n: Node, a: AppendArgs)
    requires a.term >= n.currentTerm
    ensures var r := AppendEntries(n, a).step;
      && r.node.currentTerm == a.term
      && r.sent == []
      && (a.term > n.currentTerm ==>
            && r.node.role == Follower && r.node.votedFor == None
            && r.timers == [ResetElectionTimer, ResetElectionTimer, StopHeartbeat, CancelStepDownTimer])
      && (a.term == n.currentTerm ==>
            && r.node.role == n.role && r.node.votedFor == n.votedFor
            && r.timers == [ResetElectionTimer])
  {
    var s := Admit(n, a.term);
    assert AppendEntries(n, a) == Checked(s, a);
  }

  /** Anything but success leaves the node's identity, its cluster, the log,
      the commit index and `lastApplied` alone and emits nothing to the sink. */
  lemma AppendEntriesRejectKeepsLog(n: Node, a: AppendArgs)
    requires AppendEntries(n, a).reply != Answered(AppendReply(Max(n.currentTerm, a.term), true))
    ensures var r := AppendEntries(n, a).step;
      && r.node.log == n.log
      && r.node.commitIndex == n.commitIndex
      && r.node.lastApplied == n.lastApplied
      && r.node.nodeId == n.nodeId && r.node.nodes == n.nodes
      && r.applied == []
  {
    if a.term >= n.currentTerm {
      var s := Admit(n, a.term);
      assert AppendEntries(n, a) == Checked(s, a);
    }
  }

  /** On success the node is left as the success path leaves the admitted node. */
  lemma AppendEntriesAccepts(n: Node, a: AppendArgs)
    requires AppendEntries(n, a).reply == Answered(AppendReply(a.term, true))
    ensures a.term >= n.currentTerm
    ensures a.prevLogIndex < |n.log| && (a.prevLogIndex >= -1 || a.entries == [])
    ensures AppendEntries(n, a).step.node == Accept(Admit(n, a.term).node, a).node
    ensures AppendEntries(n, a).step.applied == Accept(Admit(n, a.term).node, a).applied
  {
    assert a.term >= n.currentTerm;
    var s := Admit(n, a.term);
    assert AppendEntries(n, a) == Checked(s, a);
    CheckedAccepts(s, a);
    assert s.node.log == n.log && s.applied == [];
  }

  /** A successful answer from the consistency check on comes from the
      success path run after step `s`. */
  lemma CheckedAccepts(s: Step, a: AppendArgs)
    requires Checked(s, a).reply.Answered? && Checked(s, a).reply.value.success
    ensures a.prevLogIndex < |s.node.log| && (a.prevLogIndex >= -1 || a.entries == [])
    ensures Checked(s, a).step.node == Accept(s.node, a).node
    ensures Checked(s, a).step.applied == s.applied + Accept(s.node, a).applied
  {
    assert Checked(s, a).step == Then(s, Accept(s.node, a));
  }

  /** An accepted AppendEntries writes the entries after `prevLogIndex`
      without touching the log up to it, and moves the commit index to
      `min(leaderCommit, prevLogIndex + |entries|)` when `leaderCommit` is
      larger. */
  lemma AppendEntriesSuccess(n: Node, a: AppendArgs)
    requires AppendEntries(n, a).reply == Answered(AppendReply(a.term, true))
    ensures a.prevLogIndex < |n.log| && (a.prevLogIndex >= -1 || a.entries == [])
    ensures AppendEntries(n, a).step.node.log == Written(n.log, a)
    ensures a.prevLogIndex >= -1 ==> Installed(n.log, AppendEntries(n, a).step.node.log, a.prevLogIndex + 1, a.entries)
    ensures AppendEntries(n, a).step.node.commitIndex == NewCommitIndex(n, a)
  {
    AppendEntriesAccepts(n, a);
    var m := Admit(n, a.term).node;
    assert m.log == n.log && m.commitIndex == n.commitIndex;
    if a.prevLogIndex >= -1 {
      WrittenInstalls(n.log, a);
    }
  }

  /** An accepted AppendEntries emits exactly the entries after `lastApplied`
      up to the new commit index, in index order, and nothing when
      `leaderCommit` did not move the commit index. */
  lemma AppendEntriesApplies(n: Node, a: AppendArgs)
    requires AppendEntries(n, a).reply == Answered(AppendReply(a.term, true))
    ensures a.leaderCommit > n.commitIndex ==>
      var r := AppendEntries(n, a).step;
      var c := NewCommitIndex(n, a);
      && c < |r.node.log|
      && r.node.lastApplied == Max(n.lastApplied, c)
      && Emits(r.applied, r.node.log, n.lastApplied, c)
    ensures a.leaderCommit <= n.commitIndex ==>
      AppendEntries(n, a).step.node.lastApplied == n.lastApplied && AppendEntries(n, a).step.applied == []
  {
    AppendEntriesAccepts(n, a);
    var m := Admit(n, a.term).node;
    var acc := Accept(m, a);
    assert AppendEntries(n, a).step.node == acc.node && AppendEntries(n, a).step.applied == acc.applied;
    assert m.commitIndex == n.commitIndex && m.lastApplied == n.lastApplied;
    assert NewCommitIndex(m, a) == NewCommitIndex(n, a);
    AcceptApplies(m, a);
  }

  /** An accepted AppendEntries changes the log exactly as the Raft rule says:
      nothing when every entry is already present with its term, otherwise a
      cut at the first conflict followed by the remaining entries. */
  lemma AppendEntriesFollowsRaftRule(n: Node, a: AppendArgs)
    requires AppendEntries(n, a).reply == Answered(AppendReply(a.term, true))
    requires a.prevLogIndex >= -1
    ensures a.prevLogIndex + 1 <= |n.log|
    ensures AppendEntries(n, a).step.node.log == MergeSpec(n.log, a.prevLogIndex + 1, a.entries)
  {
    AppendEntriesSuccess(n, a);
    WrittenFollowsRaftRule(n.log, a);
  }

  /** On a node that already holds the entries with their terms and has
      nothing left to commit for them, the success path changes nothing. */
  lemma AcceptIdle(m: Node, a: AppendArgs)
    requires a.prevLogIndex >= -1 || a.entries == []
    requires a.prevLogIndex + |a.entries| < |m.log|
    requires forall i :: 0 <= i < |a.entries| ==> m.log[a.prevLogIndex + 1 + i].term == a.entries[i].term
    requires a.leaderCommit <= m.commitIndex
      || (m.commitIndex == a.prevLogIndex + |a.entries| && m.lastApplied >= m.commitIndex)
    ensures Accept(m, a) == Quiet(m)
  {
    if a.entries != [] {
      MergeKeepsMatchingLog(m.log, a.prevLogIndex + 1, a.entries);
    }
    assert Written(m.log, a) == m.log;
    assert m.(log := m.log) == m;
  }

  /** A log that passed the check keeps passing it once the entries have been
      written after `prevLogIndex`. */
  lemma CheckPassesAfterWrite(log: seq<Entry>, a: AppendArgs)
    requires a.prevLogIndex < |log| && (a.prevLogIndex >= -1 || a.entries == [])
    requires !Mismatch(log, a.prevLogIndex, a.prevLogTerm)
    ensures var log' := Written(log, a);
      && a.prevLogIndex != |log'|
      && !Mismatch(log', a.prevLogIndex, a.prevLogTerm)
  {
    var log' := Written(log, a);
    var p := a.prevLogIndex;
    if p >= 0 {
      WrittenInstalls(log, a);
      assert log'[..p + 1] == log[..p + 1];
      assert log'[p] == log'[..p + 1][p];
    }
  }

  /** After a first accepted delivery the same arguments pass the term and
      consistency checks again. */
  lemma AcceptedCheckPasses(n: Node, a: AppendArgs)
    requires AppendEntries(n, a).reply == Answered(AppendReply(a.term, true))
    ensures var n1 := AppendEntries(n, a).step.node;
      && n1.currentTerm == a.term
      && !Throws(n1, a)
      && !Mismatch(n1.log, a.prevLogIndex, a.prevLogTerm)
  {
    AppendEntriesSuccess(n, a);
    CheckPassesAfterWrite(n.log, a);
  }

  /** After a first accepted delivery the entries sit in place and nothing
      is left to commit for them. */
  lemma AcceptedEntriesInPlace(n: Node, a: AppendArgs)
    requires AppendEntries(n, a).reply == Answered(AppendReply(a.term, true))
    ensures var n1 := AppendEntries(n, a).step.node;
      && (a.prevLogIndex >= -1 || a.entries == [])
      && a.prevLogIndex + |a.entries| < |n1.log|
      && (forall i :: 0 <= i < |a.entries| ==> n1.log[a.prevLogIndex + 1 + i].term == a.entries[i].term)
      && (a.leaderCommit <= n1.commitIndex
          || (n1.commitIndex == a.prevLogIndex + |a.entries| && n1.lastApplied >= n1.commitIndex))
  {
    AppendEntriesSuccess(n, a);
    AppendEntriesApplies(n, a);
  }

  /** Re-delivering arguments that were accepted is accepted again and changes
      nothing: same state (log, commit index, `lastApplied`, term, role, vote)
      and nothing emitted to the sink a second time. */
  lemma AppendEntriesIdempotent(n: Node, a: AppendArgs)
    requires AppendEntries(n, a).reply == Answered(AppendReply(a.term, true))
    ensures var n1 := AppendEntries(n, a).step.node;
      var again := AppendEntries(n1, a);
      && again.reply == Answered(AppendReply(a.term, true))
      && again.step.node == n1
      && again.step.applied == []
  {
    AcceptedCheckPasses(n, a);
    AcceptedEntriesInPlace(n, a);
    var n1 := AppendEntries(n, a).step.node;
    assert AppendEntries(n1, a).reply == Answered(AppendReply(a.term, true));
    AppendEntriesAccepts(n1, a);
    assert Admit(n1, a.term).node == n1;
    AcceptIdle(n1, a);
  }

  /** The heartbeat a leader emits to each peer (src/raft.ts:125-131). */
  function HeartbeatFor(n: Node): AppendArgs
  {
    AppendArgs(n.currentTerm, n.nodeId, |n.log| - 1, LastLogTerm(n.log), [], n.commitIndex)
  }

  /** `sendHeartbeat()`, run on every tick of the heartbeat interval: one
      empty AppendEntries per peer describing the sender's last entry. It does
      not look at the role; the interval only runs while the node leads. */
  function SendHeartbeat(n: Node): (r: Step)
    ensures r.node == n && r.timers == [] && r.applied == []
    ensures |r.sent| == |Peers(n.nodes, n.nodeId)|
    ensures forall i :: 0 <= i < |r.sent| ==>
      && r.sent[i].AppendEntriesRpc?
      && r.sent[i].append.term == n.currentTerm
      && r.sent[i].append.leaderId == n.nodeId
      && r.sent[i].append.prevLogIndex == |n.log| - 1
      && r.sent[i].append.prevLogTerm == LastLogTerm(n.log)
      && r.sent[i].append.entries == []
      && r.sent[i].append.leaderCommit == n.commitIndex
  {
    Step(n, [], Broadcast(n, AppendEntriesRpc(HeartbeatFor(n))), [])
  }

  /** A follower holding exactly the leader's log accepts its heartbeat and
      keeps its log; the commit index follows the leader's. */
  lemma HeartbeatAcceptedByMatchingFollower(leader: Node, f: Node)
    requires f.log == leader.log && f.currentTerm <= leader.currentTerm
    ensures var r := AppendEntries(f, HeartbeatFor(leader));
      && r.reply == Answered(AppendReply(leader.currentTerm, true))
      && r.step.node.log == f.log
      && (leader.commitIndex > f.commitIndex ==> r.step.node.commitIndex == Min(leader.commitIndex, |f.log| - 1))
  {
    var a := HeartbeatFor(leader);
    assert !Throws(f, a);
    assert !Mismatch(f.log, a.prevLogIndex, a.prevLogTerm);
  }

  /** The heartbeat callback (src/raft.ts:132-138): a newer term in the reply
      makes the node a Follower; otherwise a Leader re-arms its step-down timer,
      whether or not the peer reported success. */
  function OnHeartbeatReply(n: Node, reply: AppendReply): (r: Step)
    ensures reply.term > n.currentTerm ==>
      && r.node == n.(role := Follower, currentTerm := reply.term, votedFor := None)
      && r.timers == [ResetElectionTimer, StopHeartbeat, CancelStepDownTimer]
    ensures reply.term <= n.currentTerm && n.role == Leader ==> r == Step(n, [ResetStepDownTimer], [], [])
    ensures reply.term <= n.currentTerm && n.role != Leader ==> r == Quiet(n)
    ensures r.sent == [] && r.applied == []
    ensures Valid(n) ==> Valid(r.node)
    ensures r.node.currentTerm >= n.currentTerm
  {
    if reply.term > n.currentTerm then BecomeFollower(n, reply.term)
    else if n.role == Leader then Step(n, [ResetStepDownTimer], [], [])
    else Quiet(n)
  }

  /** The step-down timer (src/raft.ts:98-103): a Leader that heard no
      heartbeat reply in time becomes a Follower of its own term, which clears
      its vote for that term. */
  function StepDownTimeout(n: Node): (r: Step)
    ensures n.role == Leader ==>
      && r.node == n.(role := Follower, votedFor := None)
      && r.timers == [ResetElectionTimer, StopHeartbeat, CancelStepDownTimer]
    ensures n.role != Leader ==> r == Quiet(n)
    ensures r.sent == [] && r.applied == []
    ensures Valid(n) ==> Valid(r.node)
  {
    if n.role == Leader then BecomeFollower(n, n.currentTerm) else Quiet(n)
  }

  /** Stepping down on the timer re-opens the vote in the same term: the
      former leader had voted for itself, yet afterwards grants a vote to
      another candidate of that very term. */
  lemma StepDownReopensVote(n: Node, other: string)
    requires Valid(n) && n.role == Leader && other != n.nodeId
    ensures var a := VoteArgs(n.currentTerm, other, LastLogIndex(n.log), LastLogTerm(n.log));
      var down := StepDownTimeout(n).node;
      && !RaftElection.RequestVote(n, a).reply.voteGranted
      && down.currentTerm == n.currentTerm
      && RaftElection.RequestVote(down, a).reply.voteGranted
  {
  }

  /** The entry and the AppendEntries arguments a leader emits for a client command. */
  function ReplicationFor(n: Node, command: string): AppendArgs
  {
    AppendArgs(n.currentTerm, n.nodeId, |n.log| - 1, LastLogTerm(n.log), [Entry(n.currentTerm, command)], n.commitIndex)
  }

  /** Commits the whole log and applies the newly committed entries, as a
      leader does once a write has reached a majority. */
  function CommitAll(n: Node): (r: Step)
    ensures r.node == n.(commitIndex := |n.log| - 1, lastApplied := Max(n.lastApplied, |n.log| - 1))
    ensures r.applied == if n.lastApplied < |n.log| - 1 then n.log[n.lastApplied + 1 ..] else []
    ensures r.timers == [] && r.sent == []
  {
    var c := n.(commitIndex := |n.log| - 1);
    var s := ApplyLogEntries(c);
    assert n.lastApplied < |n.log| - 1 ==> n.log[n.lastApplied + 1 .. |n.log|] == n.log[n.lastApplied + 1 ..];
    s
  }

  /** `clientRequest(command)`. A non-leader answers `false` at once. A Leader
      appends one entry of its term and emits it to every peer; in a cluster
      of one it commits and applies at once and answers `true`. */
  function ClientRequest(n: Node, command: string): (r: Submitted)
    ensures n.role != Leader ==> r == Submitted(Quiet(n), [false])
    ensures n.role == Leader ==>
      var log := n.log + [Entry(n.currentTerm, command)];
      && r.step.node.log == log
      && r.step.node.role == Leader && r.step.node.currentTerm == n.currentTerm
      && r.step.node.votedFor == n.votedFor
      && r.step.timers == []
      && |r.step.sent| == |Peers(n.nodes, n.nodeId)|
      && (forall i :: 0 <= i < |r.step.sent| ==> r.step.sent[i] == AppendEntriesRpc(ReplicationFor(n, command)))
      && (|n.nodes| == 1 ==>
            && r.step.node == n.(log := log, commitIndex := |n.log|, lastApplied := Max(n.lastApplied, |n.log|))
            && r.acks == [true]
            && r.step.node.commitIndex == |n.log|
            && r.step.node.lastApplied == Max(n.lastApplied, |n.log|)
            && r.step.applied == (if n.lastApplied < |n.log| then log[n.lastApplied + 1 ..] else []))
      && (|n.nodes| != 1 ==>
            && r.step.node == n.(log := log)
            && r.acks == []
            && r.step.node.commitIndex == n.commitIndex
            && r.step.node.lastApplied == n.lastApplied
            && r.step.applied == [])
    ensures Valid(n) ==> Valid(r.step.node)
    ensures r.step.node.currentTerm == n.currentTerm && r.step.node.lastApplied >= n.lastApplied
  {
    if n.role != Leader then
      Submitted(Quiet(n), [false])
    else
      var m := n.(log := n.log + [Entry(n.currentTerm, command)]);
      var sent := Broadcast(n, AppendEntriesRpc(ReplicationFor(n, command)));
      if |n.nodes| == 1 then
        var applied := CommitAll(m);
        Submitted(Step(applied.node, [], sent, applied.applied), [true])
      else
        Submitted(Step(m, [], sent, []), [])
  }

  /** A follower holding exactly the leader's log before the command accepts
      the replicated entry and ends with the leader's new log. */
  lemma ReplicationAcceptedByMatchingFollower(leader: Node, f: Node, command: string)
    requires leader.role == Leader
    requires f.log == leader.log && f.currentTerm <= leader.currentTerm
    ensures var r := AppendEntries(f, ReplicationFor(leader, command));
      && r.reply == Answered(AppendReply(leader.currentTerm, true))
      && r.step.node.log == ClientRequest(leader, command).step.node.log
  {
    var a := ReplicationFor(leader, command);
    var e := Entry(leader.currentTerm, command);
    assert !Throws(f, a);
    assert !Mismatch(f.log, a.prevLogIndex, a.prevLogTerm);
    var r := AppendEntries(f, a);
    assert r.reply == Answered(AppendReply(leader.currentTerm, true));
    var m := Admit(f, a.term).node;
    assert m.log == f.log;
    assert r.step.node.log == Merge(f.log, |f.log|, [e]);
    MergeAtEnd(f.log, [e]);
    assert ClientRequest(leader, command).step.node.log == leader.log + [e];
  }

  /** The replication callback (src/raft.ts:240-249, 260-266). A newer term in
      the reply makes the node a Follower and no client callback fires. Each
      success is counted; whenever the count is a majority, `commitIndex` jumps
      to the node's current last index, newly committed entries are applied
      and the client is told `true`. The role is not checked. */
  function OnReplicationReply(n: Node, count: nat, reply: AppendReply): (r: Replicated)
    ensures reply.term > n.currentTerm ==>
      && r.count == count && r.acks == []
      && r.step.node == n.(role := Follower, currentTerm := reply.term, votedFor := None)
      && r.step.timers == [ResetElectionTimer, StopHeartbeat, CancelStepDownTimer]
      && r.step.applied == []
    ensures reply.term <= n.currentTerm ==> r.count == (if reply.success then count + 1 else count)
    ensures reply.term <= n.currentTerm && reply.success && Majority(count + 1, |n.nodes|) ==>
      && r.acks == [true]
      && r.step.node == n.(commitIndex := |n.log| - 1, lastApplied := Max(n.lastApplied, |n.log| - 1))
      && r.step.applied == (if n.lastApplied < |n.log| - 1 then n.log[n.lastApplied + 1 ..] else [])
    ensures reply.term <= n.currentTerm && !(reply.success && Majority(count + 1, |n.nodes|)) ==>
      r.acks == [] && r.step == Quiet(n)
    ensures r.step.sent == [] && (reply.term <= n.currentTerm ==> r.step.timers == [])
    ensures Valid(n) ==> Valid(r.step.node)
    ensures r.step.node.currentTerm >= n.currentTerm && r.step.node.lastApplied >= n.lastApplied
  {
    if reply.term > n.currentTerm then
      Replicated(BecomeFollower(n, reply.term), count, [])
    else if reply.success then
      var c := count + 1;
      if Majority(c, |n.nodes|) then
        Replicated(CommitAll(n), c, [true])
      else
        Replicated(Quiet(n), c, [])
    else
      Replicated(Quiet(n), count, [])
  }

  /** The client may be told `true` more than once: after the reply that
      reached the majority, every further successful reply fires the callback
      again. */
  lemma SuccessReportedAgain(n: Node, count: nat, first: AppendReply, second: AppendReply)
    requires first.success && second.success
    requires first.term <= n.currentTerm && second.term <= n.currentTerm
    requires Majority(count + 1, |n.nodes|)
    ensures var r1 := OnReplicationReply(n, count, first);
      var r2 := OnReplicationReply(r1.step.node, r1.count, second);
      r1.acks == [true] && r2.acks == [true]
  {
  }

  /** `commitIndex` is not monotone: an AppendEntries that passes the checks,
      whose `leaderCommit` exceeds the local commit index but whose last new
      index lies below it, is accepted and moves the commit index back. */
  lemma CommitIndexCanMoveBack(n: Node, a: AppendArgs)
    requires a.term >= n.currentTerm
    requires -1 <= a.prevLogIndex < |n.log|
    requires a.prevLogIndex >= 0 ==> n.log[a.prevLogIndex].term == a.prevLogTerm
    requires a.leaderCommit > n.commitIndex > a.prevLogIndex + |a.entries|
    ensures AppendEntries(n, a).reply == Answered(AppendReply(a.term, true))
    ensures AppendEntries(n, a).step.node.commitIndex < n.commitIndex
    ensures n.lastApplied >= n.commitIndex ==>
      AppendEntries(n, a).step.node.lastApplied > AppendEntries(n, a).step.node.commitIndex
  {
    assert !Throws(n, a) && !Mismatch(n.log, a.prevLogIndex, a.prevLogTerm);
    AppendEntriesSuccess(n, a);
    AppendEntriesApplies(n, a);
  }

  /** Committed entries are not safe from truncation: an accepted AppendEntries
      whose single entry conflicts with a committed one cuts the log there,
      keeps the commit index and `lastApplied`, and so can leave the commit
      index past the end of the log. With `Node("n1", ["n1", "n2", "n3"],
      Follower, 1, None, [e, e, e], 2, 2)` and `AppendArgs(2, "n2", 0, 1,
      [Entry(2, "z")], 0)` the log becomes `[e, Entry(2, "z")]` while the
      commit index stays 2. */
  lemma CommittedEntryTruncated(n: Node, a: AppendArgs, x: Entry)
    requires a.term >= n.currentTerm
    requires 0 <= a.prevLogIndex && a.prevLogIndex + 1 < |n.log|
    requires n.log[a.prevLogIndex].term == a.prevLogTerm
    requires a.entries == [x] && n.log[a.prevLogIndex + 1].term != x.term
    requires a.leaderCommit <= n.commitIndex
    ensures var r := AppendEntries(n, a);
      && r.reply == Answered(AppendReply(a.term, true))
      && r.step.node.log == n.log[..a.prevLogIndex + 1] + [x]
      && r.step.node.commitIndex == n.commitIndex
      && r.step.node.lastApplied == n.lastApplied
    ensures n.commitIndex > a.prevLogIndex + 1 ==>
      AppendEntries(n, a).step.node.commitIndex >= |AppendEntries(n, a).step.node.log|
  {
    assert !Throws(n, a) && !Mismatch(n.log, a.prevLogIndex, a.prevLogTerm);
    AppendEntriesSuccess(n, a);
    AppendEntriesApplies(n, a);
    AppendEntriesFollowsRaftRule(n, a);
    assert FirstConflict(n.log, a.prevLogIndex + 1, a.entries) == 0;
    assert a.entries[0..] == [x];
  }
}
