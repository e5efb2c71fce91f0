/**
 The per-node state of `RaftNode` (src/raft.ts) and the transitions every
 handler shares: construction, `becomeFollower`, `becomeLeader` and
 `applyLogEntries`.

 Timers and the event emitter are not modelled as running code. A handler is a
 pure function from the node state (and its input) to a `Step`: the new state
 together with the timer operations it requested, the RPC requests it emitted
 and the log entries it emitted to the applied-state sink, in order.
 */
module RaftState {
  import opened Wrappers

  datatype Role = Follower | Candidate | Leader

  datatype Entry = Entry(term: int, command: string)

  /** A log position as the program counts it: 0-based, -1 meaning "no entry". */
  type Index = i: int | -1 <= i

  datatype Node = Node(
    nodeId: string,
    nodes: seq<string>,
    role: Role,
    currentTerm: int,
    votedFor: Option<string>,
    log: seq<Entry>,
    commitIndex: int,
    lastApplied: Index
  )

  /** The three timers of a node, as operations a handler asks for. Cancelling a
      timer that is not running has no effect, so cancellations are requested
      whether or not the program's handle happened to be set. */
  datatype TimerOp =
    | ResetElectionTimer
    | CancelElectionTimer
    | StartHeartbeat
    | StopHeartbeat
    | ResetStepDownTimer
    | CancelStepDownTimer

  datatype VoteArgs = VoteArgs(term: int, candidateId: string, lastLogIndex: int, lastLogTerm: int)

  datatype VoteReply = VoteReply(term: int, voteGranted: bool)

  datatype AppendArgs = AppendArgs(
    term: int,
    leaderId: string,
    prevLogIndex: int,
    prevLogTerm: int,
    entries: seq<Entry>,
    leaderCommit: int
  )

  datatype AppendReply = AppendReply(term: int, success: bool)

  /** An emitted RPC event. The program's `emit` carries no destination: one
      copy is emitted per peer visited by the `forEach` loop. */
  datatype Rpc = RequestVoteRpc(vote: VoteArgs) | AppendEntriesRpc(append: AppendArgs)

  /** The outcome of one handler invocation. */
  datatype Step = Step(node: Node, timers: seq<TimerOp>, sent: seq<Rpc>, applied: seq<Entry>)

  /** How a handler answered its caller's callback: `Threw` when the program
      raises a TypeError before calling back. */
  datatype Reply<+R> = Answered(value: R) | Threw

  /** A state change with no effects. */
  function Quiet(n: Node): Step
  {
    Step(n, [], [], [])
  }

  /** Runs `next` (computed from `first.node`) after `first`, keeping both effect lists. */
  function Then(first: Step, next: Step): Step
  {
    Step(next.node, first.timers + next.timers, first.sent + next.sent, first.applied + next.applied)
  }

  function LastLogIndex(log: seq<Entry>): Index
  {
    |log| - 1
  }

  /** The term of the last entry, 0 for an empty log. */
  function LastLogTerm(log: seq<Entry>): int
  {
    if |log| > 0 then log[|log| - 1].term else 0
  }

  function Max(a: int, b: int): int
  {
    if a < b then b else a
  }

  function Min(a: int, b: int): int
  {
    if a < b then a else b
  }

  /** The ids the program's `forEach` loops send to: every entry of `nodes` other than `self`. */
  function Peers(nodes: seq<string>, self: string): (ps: seq<string>)
    ensures forall p :: p in ps <==> p in nodes && p != self
    ensures multiset(ps) == multiset(nodes)[self := 0]
    ensures |ps| <= |nodes|
  {
    if nodes == [] then []
    else
      assert nodes == [nodes[0]] + nodes[1..];
      (if nodes[0] != self then [nodes[0]] else []) + Peers(nodes[1..], self)
  }

  /** One copy of `rpc` per peer of `n`. */
  function Broadcast(n: Node, rpc: Rpc): (out: seq<Rpc>)
    ensures |out| == |Peers(n.nodes, n.nodeId)|
    ensures forall i :: 0 <= i < |out| ==> out[i] == rpc
  {
    seq(|Peers(n.nodes, n.nodeId)|, _ => rpc)
  }

  /** The program's `count > nodes.length / 2`, in exact arithmetic. */
  predicate Majority(count: int, clusterSize: int)
  {
    2 * count > clusterSize
  }

  /** What every reachable node satisfies: terms are never negative, and a
      node that has started an election has voted for itself in its term. */
  predicate Valid(n: Node)
  {
    && n.currentTerm >= 0
    && (n.role != Follower ==> n.votedFor == Some(n.nodeId))
  }

  /** The constructor: a Follower in term 0 with an empty log and its election timer armed. */
  function Init(nodeId: string, nodes: seq<string>): (r: Step)
    ensures Valid(r.node)
    ensures r.node.nodeId == nodeId && r.node.nodes == nodes
    ensures r.node.role == Follower && r.node.currentTerm == 0 && r.node.votedFor == None
    ensures r.node.log == [] && r.node.commitIndex == 0 && r.node.lastApplied == 0
    ensures r.timers == [ResetElectionTimer] && r.sent == [] && r.applied == []
  {
    Step(Node(nodeId, nodes, Follower, 0, None, [], 0, 0), [ResetElectionTimer], [], [])
  }

  /** `becomeFollower(term)`. It acts unless the node already is a Follower and
      `term` is not newer; acting sets the term even when it is not newer, and
      always clears the vote. */
  function BecomeFollower(n: Node, term: int): (r: Step)
    ensures n.role == Follower && term <= n.currentTerm ==> r == Quiet(n)
    ensures n.role != Follower || term > n.currentTerm ==>
      && r.node == n.(role := Follower, currentTerm := term, votedFor := None)
      && r.timers == [ResetElectionTimer, StopHeartbeat, CancelStepDownTimer]
      && r.sent == [] && r.applied == []
    ensures term >= n.currentTerm && Valid(n) ==> Valid(r.node)
    ensures r.node.log == n.log && r.node.commitIndex == n.commitIndex && r.node.lastApplied == n.lastApplied
  {
    if n.role != Follower || term > n.currentTerm then
      Step(n.(role := Follower, currentTerm := term, votedFor := None),
           [ResetElectionTimer, StopHeartbeat, CancelStepDownTimer], [], [])
    else
      Quiet(n)
  }

  /** `becomeLeader()`: only a Candidate is promoted; it stops its election
      timer and starts heartbeats and the step-down timer. */
  function BecomeLeader(n: Node): (r: Step)
    ensures n.role != Candidate ==> r == Quiet(n)
    ensures n.role == Candidate ==>
      && r.node == n.(role := Leader)
      && r.timers == [CancelElectionTimer, StartHeartbeat, ResetStepDownTimer]
      && r.sent == [] && r.applied == []
    ensures Valid(n) ==> Valid(r.node)
  {
    if n.role == Candidate then
      Step(n.(role := Leader), [CancelElectionTimer, StartHeartbeat, ResetStepDownTimer], [], [])
    else
      Quiet(n)
  }

  /** `applyLogEntries()`: pre-increments `lastApplied` and emits the entry at
      that index until it reaches `commitIndex`. The program reads past the end
      of the log when `commitIndex` is beyond it; every caller rules that out. */
  function ApplyLogEntries(n: Node): (r: Step)
    requires n.commitIndex <= n.lastApplied || n.commitIndex < |n.log|
    ensures r.node.lastApplied == Max(n.lastApplied, n.commitIndex)
    ensures r.node == n.(lastApplied := r.node.lastApplied)
    ensures r.applied == if n.lastApplied < n.commitIndex then n.log[n.lastApplied + 1 .. n.commitIndex + 1] else []
    ensures r.timers == [] && r.sent == []
    decreases n.commitIndex - n.lastApplied
  {
    if n.lastApplied < n.commitIndex then
      var next := n.(lastApplied := n.lastApplied + 1);
      var rest := ApplyLogEntries(next);
      Step(rest.node, [], [], [n.log[next.lastApplied]] + rest.applied)
    else
      Quiet(n)
  }

  /** From a node with `lastApplied >= 0`, as every node reachable from `Init`
      is, `applyLogEntries` emits, in order, the entries at `lastApplied + 1`
      onwards, so the entry at index 0 is never emitted. */
  lemma {:induction false} FirstEntryNeverApplied(n: Node)
    requires n.lastApplied >= 0
    requires n.commitIndex <= n.lastApplied || n.commitIndex < |n.log|
    ensures var applied := ApplyLogEntries(n).applied;
      forall i :: 0 <= i < |applied| ==> 1 <= n.lastApplied + 1 + i < |n.log| && applied[i] == n.log[n.lastApplied + 1 + i]
  {
    EmittedAfter(n.log, n.lastApplied, n.commitIndex, ApplyLogEntries(n).applied);
  }

  /** The entries emitted from `lastApplied` up to `commit` sit in the log at `lastApplied + 1` onwards. */
  lemma EmittedAfter(log: seq<Entry>, lastApplied: int, commit: int, applied: seq<Entry>)
    requires lastApplied >= 0
    requires lastApplied < commit ==> commit < |log|
    requires applied == if lastApplied < commit then log[lastApplied + 1 .. commit + 1] else []
    ensures forall i :: 0 <= i < |applied| ==> 1 <= lastApplied + 1 + i < |log| && applied[i] == log[lastApplied + 1 + i]
  {
  }
}
