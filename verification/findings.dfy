/**
 Two places where `RaftNode` (src/raft.ts) departs from what it evidently
 means to do. Each is shown on the model of the code as written, and a
 corrected definition is given beside it with the intended property proved.
 */
module Findings {
  import opened Wrappers
  import opened RaftState
  import opened RaftLog
  import RaftElection
  import RaftReplication
  import KeyValueStore
  import Server

  // ---------------------------------------------------------------------
  // 1. The consistency check compares `log.length < prevLogIndex`, so a
  //    `prevLogIndex` exactly one past the end reaches `log[prevLogIndex].term`
  //    and throws instead of rejecting.
  // ---------------------------------------------------------------------

  /** As written: a follower that lacks only the leader's last entry crashes
      on the leader's next heartbeat instead of answering it. */
  lemma HeartbeatCrashesLaggingFollower(leader: Node, f: Node, last: Entry)
    requires leader.log == f.log + [last]
    requires f.currentTerm <= leader.currentTerm
    ensures RaftReplication.AppendEntries(f, RaftReplication.HeartbeatFor(leader)).reply == Threw
  {
    assert RaftReplication.Throws(f, RaftReplication.HeartbeatFor(leader));
  }

  /** The check with `<=`: an index at or past the end of the log is a
      mismatch, so the check never reads outside the log. */
  function ConsistencyCheckFixed(log: seq<Entry>, prevLogIndex: int, prevLogTerm: int): (c: Check)
    ensures c != Undefined
    ensures c == Consistent <==>
      prevLogIndex < |log| && (0 <= prevLogIndex ==> log[prevLogIndex].term == prevLogTerm)
  {
    if |log| <= prevLogIndex then Inconsistent
    else if prevLogIndex >= 0 && log[prevLogIndex].term != prevLogTerm then Inconsistent
    else Consistent
  }

  /** `appendEntries` with the corrected check. */
  function AppendEntriesFixed(n: Node, a: AppendArgs): (r: RaftReplication.Appended)
    // every RPC the program builds has prevLogIndex >= -1, and none of them throws
    ensures a.prevLogIndex >= -1 ==> r.reply.Answered?
    // where the program answers, the corrected handler answers the same way
    ensures !RaftReplication.Throws(n, a) ==> r == RaftReplication.AppendEntries(n, a)
    // where it crashed on an index one past the end, the follower now rejects
    // after taking only the term step
    ensures a.term >= n.currentTerm && 0 <= a.prevLogIndex == |n.log| ==>
      && r.reply == Answered(AppendReply(a.term, false))
      && r.step.node == RaftReplication.Admit(n, a.term).node
      && r.step.node.log == n.log && r.step.node.commitIndex == n.commitIndex
      && r.step.node.lastApplied == n.lastApplied
      && r.step.applied == []
    // the negative index below -1 that the append loop reads is not part of
    // this correction: there the handler still throws, as the original does
    ensures r.reply == Threw <==> a.term >= n.currentTerm && a.prevLogIndex < -1 && a.entries != []
  {
    if a.term < n.currentTerm then
      RaftReplication.Appended(Quiet(n), Answered(AppendReply(n.currentTerm, false)))
    else
      var s := RaftReplication.Admit(n, a.term);
      var m := s.node;
      if ConsistencyCheckFixed(m.log, a.prevLogIndex, a.prevLogTerm) == Inconsistent then
        RaftReplication.Appended(s, Answered(AppendReply(m.currentTerm, false)))
      else if a.prevLogIndex < -1 && a.entries != [] then
        RaftReplication.Appended(s, Threw)
      else
        RaftReplication.Appended(Then(s, RaftReplication.Accept(m, a)), Answered(AppendReply(m.currentTerm, true)))
  }

  /** Corrected: the lagging follower rejects the heartbeat and keeps running
      with its log intact. */
  lemma HeartbeatRejectedByLaggingFollower(leader: Node, f: Node, last: Entry)
    requires leader.log == f.log + [last]
    requires f.currentTerm <= leader.currentTerm
    ensures var r := AppendEntriesFixed(f, RaftReplication.HeartbeatFor(leader));
      && r.reply == Answered(AppendReply(leader.currentTerm, false))
      && r.step.node.log == f.log
  {
  }

  // ---------------------------------------------------------------------
  // 2. `commitIndex` and `lastApplied` start at 0 while the log is 0-based,
  //    so `applyLogEntries` starts at index 1 and the first command ever
  //    written never reaches the store.
  // ---------------------------------------------------------------------

  const Cluster: seq<string> := ["node1", "node2", "node3"]
  /** The command a PUT of `v1` under `k` writes. */
  const FirstWrite: string := Server.EncodeSet("k", "v1")

  /** A node of `Cluster` wins the first election and replicates one write;
      the first peer's acknowledgement makes a majority. Returns the
      leader, the write's result and the replication callback's result. */
  function FirstWriteScenario(start: Node): (Node, RaftReplication.Submitted, RaftReplication.Replicated)
  {
    var candidate := RaftElection.StartElection(start).node;
    var leader := RaftElection.OnVoteReply(candidate, RaftElection.SelfVote, VoteReply(1, true)).step.node;
    var w := RaftReplication.ClientRequest(leader, FirstWrite);
    var ack := RaftReplication.OnReplicationReply(w.step.node, 1, AppendReply(1, true));
    (leader, w, ack)
  }

  /** Everything the scenario emits to the sink, in order. */
  function ScenarioApplied(start: Node): seq<Entry>
  {
    var (_, w, ack) := FirstWriteScenario(start);
    w.step.applied + ack.step.applied
  }

  /** From any fresh Follower of `Cluster`, the scenario elects the node,
      acknowledges the write and commits index 0; the write reaches the sink
      exactly when `lastApplied` starts below 0. */
  lemma ScenarioRuns(start: Node)
    requires start.role == Follower && start.currentTerm == 0 && start.log == [] && start.nodes == Cluster
    ensures var (leader, _, ack) := FirstWriteScenario(start);
      && leader.role == Leader
      && ack.acks == [true]
      && ack.step.node.commitIndex == 0
    ensures ScenarioApplied(start) == if start.lastApplied < 0 then [Entry(1, FirstWrite)] else []
  {
    assert |Cluster| == 3;
    var candidate := RaftElection.StartElection(start).node;
    assert candidate == start.(role := Candidate, currentTerm := 1, votedFor := Some(start.nodeId));
    assert Majority(RaftElection.SelfVote + 1, |Cluster|);
    var leader := RaftElection.OnVoteReply(candidate, RaftElection.SelfVote, VoteReply(1, true)).step.node;
    assert leader == candidate.(role := Leader);
    var w := RaftReplication.ClientRequest(leader, FirstWrite);
    var m := w.step.node;
    assert m.log == [Entry(1, FirstWrite)] && m.currentTerm == 1;
    assert m.lastApplied == start.lastApplied && w.step.applied == [];
    var ack := RaftReplication.OnReplicationReply(m, 1, AppendReply(1, true));
    assert ack.acks == [true] && ack.step.node.commitIndex == 0;
    assert ack.step.applied == if start.lastApplied < 0 then m.log[start.lastApplied + 1 ..] else [];
    assert FirstWriteScenario(start) == (leader, w, ack);
  }

  /** As written: the leader tells the client the write succeeded, yet emits
      nothing to the sink, and the key stays absent from its store. */
  lemma FirstWriteNeverApplied()
    ensures var (leader, _, ack) := FirstWriteScenario(Init("node1", Cluster).node);
      && leader.role == Leader
      && ack.acks == [true]
      && ack.step.node.commitIndex == 0
    ensures ScenarioApplied(Init("node1", Cluster).node) == []
    ensures KeyValueStore.Get(Server.ApplyAll(KeyValueStore.Empty(), ScenarioApplied(Init("node1", Cluster).node)), "k") == None
  {
    ScenarioRuns(Init("node1", Cluster).node);
  }

  /** The constructor with nothing committed and nothing applied, in the
      program's own 0-based counting. */
  function InitFixed(nodeId: string, nodes: seq<string>): (r: Step)
    ensures Valid(r.node)
    ensures r.node.commitIndex == LastLogIndex(r.node.log) && r.node.lastApplied == LastLogIndex(r.node.log)
    ensures r.node == Init(nodeId, nodes).node.(commitIndex := -1, lastApplied := -1)
    ensures r.timers == Init(nodeId, nodes).timers
    ensures r == Init(nodeId, nodes).(node := Init(nodeId, nodes).node.(commitIndex := -1, lastApplied := -1))
  {
    Step(Node(nodeId, nodes, Follower, 0, None, [], -1, -1), [ResetElectionTimer], [], [])
  }

  /** From the corrected state, committing up to any index emits every entry
      from the first one on. */
  lemma FixedAppliesFromFirstEntry(nodeId: string, nodes: seq<string>, log: seq<Entry>, commit: int)
    requires -1 <= commit < |log|
    ensures ApplyLogEntries(InitFixed(nodeId, nodes).node.(log := log, commitIndex := commit)).applied == log[..commit + 1]
  {
  }

  /** Corrected: the same scenario commits the write and emits it to the sink. */
  lemma FirstWriteCommitted()
    ensures var (leader, _, ack) := FirstWriteScenario(InitFixed("node1", Cluster).node);
      && leader.role == Leader
      && ack.acks == [true]
      && ack.step.node.commitIndex == 0
    ensures ScenarioApplied(InitFixed("node1", Cluster).node) == [Entry(1, FirstWrite)]
  {
    ScenarioRuns(InitFixed("node1", Cluster).node);
  }

  /** Corrected: the store then reads back the written value. */
  lemma FirstWriteApplied()
    ensures KeyValueStore.Get(Server.ApplyAll(KeyValueStore.Empty(), ScenarioApplied(InitFixed("node1", Cluster).node)), "k") == Some("v1")
  {
    FirstWriteCommitted();
    StoreAfterFirstWrite(ScenarioApplied(InitFixed("node1", Cluster).node));
  }

  /** The store after the sink has received only the first write. */
  lemma StoreAfterFirstWrite(applied: seq<Entry>)
    requires applied == [Entry(1, FirstWrite)]
    ensures KeyValueStore.Get(Server.ApplyAll(KeyValueStore.Empty(), applied), "k") == Some("v1")
  {
    assert Server.Space !in "k" && Server.Space !in "v1";
    Server.SetThenGet(KeyValueStore.Empty(), 1, "k", "v1");
  }
}
