/**
 One `RaftNode` as a single-threaded event loop: every timer firing, inbound
 RPC, RPC reply and client command is one `Event`, handled to completion
 before the next. A run stops at the first handler that throws, since the
 exception escapes the event emitter.
 */
module RaftNode {
  import opened RaftState
  import RaftElection
  import RaftReplication

  datatype Event =
    | ElectionTimerFired
    | HeartbeatTimerFired
    | StepDownTimerFired
    | VoteRequested(vote: VoteArgs)
    | EntriesArrived(append: AppendArgs)
    | VoteAnswered(votes: nat, voteReply: VoteReply)
    | HeartbeatAnswered(heartbeatReply: AppendReply)
    | ReplicationAnswered(count: nat, replicationReply: AppendReply)
    | ClientCommand(command: string)

  /** A handled event: the step, and whether the handler threw. */
  datatype Outcome = Outcome(step: Step, threw: bool)

  /** Dispatches one event to its handler. */
  function Handle(n: Node, e: Event): (r: Outcome)
    ensures r.threw <==> e.EntriesArrived? && RaftReplication.Throws(n, e.append)
    ensures Valid(n) ==> Valid(r.step.node)
    ensures r.step.node.currentTerm >= n.currentTerm
    ensures r.step.node.lastApplied >= n.lastApplied
  {
    match e
    case ElectionTimerFired => Outcome(RaftElection.StartElection(n), false)
    case HeartbeatTimerFired => Outcome(RaftReplication.SendHeartbeat(n), false)
    case StepDownTimerFired => Outcome(RaftReplication.StepDownTimeout(n), false)
    case VoteRequested(a) => Outcome(RaftElection.RequestVote(n, a).step, false)
    case EntriesArrived(a) =>
      var r := RaftReplication.AppendEntries(n, a);
      Outcome(r.step, r.reply.Threw?)
    case VoteAnswered(votes, reply) => Outcome(RaftElection.OnVoteReply(n, votes, reply).step, false)
    case HeartbeatAnswered(reply) => Outcome(RaftReplication.OnHeartbeatReply(n, reply), false)
    case ReplicationAnswered(count, reply) =>
      Outcome(RaftReplication.OnReplicationReply(n, count, reply).step, false)
    case ClientCommand(command) => Outcome(RaftReplication.ClientRequest(n, command).step, false)
  }

  /** The node after handling `events` in order, up to the first throw. */
  function Run(n: Node, events: seq<Event>): Node
    decreases |events|
  {
    if events == [] then n
    else
      var o := Handle(n, events[0]);
      if o.threw then o.step.node else Run(o.step.node, events[1..])
  }

  /** Over any run the node invariant holds, the term never goes back and
      `lastApplied` never goes back. */
  lemma {:induction false} RunKeepsInvariants(n: Node, events: seq<Event>)
    requires Valid(n)
    ensures Valid(Run(n, events))
    ensures Run(n, events).currentTerm >= n.currentTerm
    ensures Run(n, events).lastApplied >= n.lastApplied
    decreases |events|
  {
    if events != [] {
      var o := Handle(n, events[0]);
      if !o.threw {
        RunKeepsInvariants(o.step.node, events[1..]);
      }
    }
  }

  /** Every node reachable from construction satisfies the invariant, and
      its `lastApplied` is never below 0. */
  lemma ReachableNodes(nodeId: string, nodes: seq<string>, events: seq<Event>)
    ensures Valid(Run(Init(nodeId, nodes).node, events))
    ensures Run(Init(nodeId, nodes).node, events).lastApplied >= 0
  {
    RunKeepsInvariants(Init(nodeId, nodes).node, events);
  }
}
