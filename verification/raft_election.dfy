/**
 Leader election in `RaftNode` (src/raft.ts): `startElection`, the callback it
 attaches to every RequestVote it emits, and the `requestVote` handler.

 The callback closes over a `votesReceived` counter that belongs to one call of
 `startElection`; here that counter is passed in and handed back explicitly.
 */
module RaftElection {
  import opened Wrappers
  import opened RaftState

  /** The counter each `startElection` call starts from: the node's own vote. */
  const SelfVote: nat := 1

  /** The callback's result: the step and the updated `votesReceived`. */
  datatype Tally = Tally(step: Step, votes: nat)

  /** The state and callback reply of one `requestVote`. */
  datatype Voted = Voted(step: Step, reply: VoteReply)

  /** The request a node emits to each peer when it stands in its current term. */
  function VoteRequestFor(n: Node): VoteArgs
  {
    VoteArgs(n.currentTerm, n.nodeId, LastLogIndex(n.log), LastLogTerm(n.log))
  }

  /** `startElection()`, run when the election timer fires. A Leader ignores it;
      any other node becomes a Candidate in the next term, votes for itself,
      re-arms its election timer and asks every peer for a vote. */
  function StartElection(n: Node): (r: Step)
    ensures n.role == Leader ==> r == Quiet(n)
    ensures n.role != Leader ==>
      && r.node == n.(role := Candidate, currentTerm := n.currentTerm + 1, votedFor := Some(n.nodeId))
      && r.timers == [ResetElectionTimer]
      && r.applied == []
      && |r.sent| == |Peers(n.nodes, n.nodeId)|
      && (forall i :: 0 <= i < |r.sent| ==>
            r.sent[i] == RequestVoteRpc(VoteArgs(n.currentTerm + 1, n.nodeId, |n.log| - 1, LastLogTerm(n.log))))
    ensures Valid(n) ==> Valid(r.node)
    ensures r.node.currentTerm >= n.currentTerm
  {
    if n.role == Leader then
      Quiet(n)
    else
      var m := n.(role := Candidate, currentTerm := n.currentTerm + 1, votedFor := Some(n.nodeId));
      Step(m, [ResetElectionTimer], Broadcast(m, RequestVoteRpc(VoteRequestFor(m))), [])
  }

  /** The RequestVote callback (src/raft.ts:65-77). Only a Candidate listens; a
      newer term in the reply makes it a Follower, and a granted vote is counted,
      promoting it once the count is a strict majority of `nodes`. The reply's
      term is not compared with the election's term, so a reply to an earlier
      election still counts. */
  function OnVoteReply(n: Node, votes: nat, reply: VoteReply): (r: Tally)
    ensures n.role != Candidate ==> r == Tally(Quiet(n), votes)
    ensures n.role == Candidate && reply.term > n.currentTerm ==>
      && r.votes == votes
      && r.step.node == n.(role := Follower, currentTerm := reply.term, votedFor := None)
      && r.step.timers == [ResetElectionTimer, StopHeartbeat, CancelStepDownTimer]
    ensures n.role == Candidate && reply.term <= n.currentTerm ==>
      r.votes == (if reply.voteGranted then votes + 1 else votes)
    ensures r.step.node.role == Leader <==>
      n.role == Leader || (n.role == Candidate && reply.term <= n.currentTerm && reply.voteGranted && Majority(votes + 1, |n.nodes|))
    ensures n.role == Candidate && reply.term <= n.currentTerm && reply.voteGranted && Majority(votes + 1, |n.nodes|) ==>
      && r.step.node == n.(role := Leader)
      && r.step.timers == [CancelElectionTimer, StartHeartbeat, ResetStepDownTimer]
    ensures n.role == Candidate && reply.term <= n.currentTerm && !(reply.voteGranted && Majority(votes + 1, |n.nodes|)) ==>
      r.step == Quiet(n)
    ensures r.step.node.role == Leader ==> r.step.node.currentTerm == n.currentTerm
    ensures r.step.node.log == n.log && r.step.sent == [] && r.step.applied == []
    ensures r.step.node.commitIndex == n.commitIndex && r.step.node.lastApplied == n.lastApplied
    ensures Valid(n) ==> Valid(r.step.node)
    ensures r.step.node.currentTerm >= n.currentTerm
  {
    if n.role != Candidate then
      Tally(Quiet(n), votes)
    else if reply.term > n.currentTerm then
      Tally(BecomeFollower(n, reply.term), votes)
    else if reply.voteGranted then
      var v := votes + 1;
      Tally(if Majority(v, |n.nodes|) then BecomeLeader(n) else Quiet(n), v)
    else
      Tally(Quiet(n), votes)
  }

  /** The up-to-date comparison at src/raft.ts:218-219: a later last term wins,
      and on an equal last term the longer (or equally long) log wins. */
  predicate AtLeastAsUpToDate(lastLogTerm: int, lastLogIndex: int, voterLastTerm: int, voterLastIndex: int)
  {
    lastLogTerm > voterLastTerm || (lastLogTerm == voterLastTerm && lastLogIndex >= voterLastIndex)
  }

  /** Whether a voter with this state would grant `a`, before any step-down it
      performs for a newer term. */
  predicate WouldGrant(n: Node, a: VoteArgs)
  {
    && a.term >= n.currentTerm
    && (a.term > n.currentTerm || n.votedFor == None || n.votedFor == Some(a.candidateId))
    && AtLeastAsUpToDate(a.lastLogTerm, a.lastLogIndex, LastLogTerm(n.log), LastLogIndex(n.log))
  }

  /** `requestVote(args)`. A stale term is denied with no change; a newer term
      first makes the node a Follower of that term (clearing its vote). The vote
      is then granted iff the node has not voted for someone else and the
      candidate's log is at least as up to date; a grant records the vote and
      re-arms the election timer. */
  function RequestVote(n: Node, a: VoteArgs): (r: Voted)
    ensures a.term < n.currentTerm ==> r == Voted(Quiet(n), VoteReply(n.currentTerm, false))
    ensures r.reply.term == Max(n.currentTerm, a.term) == r.step.node.currentTerm
    ensures r.reply.voteGranted <==> WouldGrant(n, a)
    ensures r.reply.voteGranted ==>
      && r.step.node == (if a.term > n.currentTerm then n.(role := Follower, currentTerm := a.term) else n).(votedFor := Some(a.candidateId))
      && r.step.timers == (if a.term > n.currentTerm then [ResetElectionTimer, StopHeartbeat, CancelStepDownTimer] else []) + [ResetElectionTimer]
    ensures !r.reply.voteGranted && a.term > n.currentTerm ==>
      && r.step.node == n.(role := Follower, currentTerm := a.term, votedFor := None)
      && r.step.timers == [ResetElectionTimer, StopHeartbeat, CancelStepDownTimer]
    ensures !r.reply.voteGranted && a.term <= n.currentTerm ==> r.step == Quiet(n)
    ensures a.term > n.currentTerm ==> r.step.node.role == Follower
    ensures a.term <= n.currentTerm ==> r.step.node.role == n.role
    ensures r.step.node.log == n.log && r.step.node.commitIndex == n.commitIndex
    ensures r.step.node.lastApplied == n.lastApplied
    ensures r.step.sent == [] && r.step.applied == []
    ensures Valid(n) ==> Valid(r.step.node)
  {
    if a.term < n.currentTerm then
      Voted(Quiet(n), VoteReply(n.currentTerm, false))
    else
      var s := if a.term > n.currentTerm then BecomeFollower(n, a.term) else Quiet(n);
      var m := s.node;
      if (m.votedFor == None || m.votedFor == Some(a.candidateId))
         && AtLeastAsUpToDate(a.lastLogTerm, a.lastLogIndex, LastLogTerm(m.log), LastLogIndex(m.log))
      then
        Voted(Then(s, Step(m.(votedFor := Some(a.candidateId)), [ResetElectionTimer], [], [])),
              VoteReply(m.currentTerm, true))
      else
        Voted(s, VoteReply(m.currentTerm, false))
  }

  /** A run of vote requests handled one after another; returns the final
      state and the candidates that were granted a vote, in order. */
  function RequestVotes(n: Node, requests: seq<VoteArgs>): (r: (Node, seq<string>))
    decreases |requests|
  {
    if requests == [] then (n, [])
    else
      var first := RequestVote(n, requests[0]);
      var rest := RequestVotes(first.step.node, requests[1..]);
      (rest.0, (if first.reply.voteGranted then [requests[0].candidateId] else []) + rest.1)
  }

  /** Every candidate in `granted` is the same one, and is `prior` if that is set. */
  predicate OneCandidate(granted: seq<string>, prior: Option<string>)
  {
    && (prior.Some? ==> forall i :: 0 <= i < |granted| ==> granted[i] == prior.value)
    && (forall i, j :: 0 <= i < |granted| && 0 <= j < |granted| ==> granted[i] == granted[j])
  }

  /** While the term does not move, a node grants its vote to one candidate
      only: every grant goes to the candidate it had already voted for, if any,
      and otherwise all grants go to the same candidate. */
  lemma {:induction false} OneCandidatePerTerm(n: Node, requests: seq<VoteArgs>)
    requires forall i :: 0 <= i < |requests| ==> requests[i].term <= n.currentTerm
    ensures OneCandidate(RequestVotes(n, requests).1, n.votedFor)
    decreases |requests|
  {
    if requests != [] {
      var first := RequestVote(n, requests[0]);
      var m := first.step.node;
      assert m.currentTerm == n.currentTerm;
      assert forall i :: 0 <= i < |requests[1..]| ==> requests[1..][i].term <= m.currentTerm;
      OneCandidatePerTerm(m, requests[1..]);
      var granted := RequestVotes(n, requests).1;
      var rest := RequestVotes(m, requests[1..]).1;
      if first.reply.voteGranted {
        var c := requests[0].candidateId;
        assert m.votedFor == Some(c);
        assert granted == [c] + rest;
        assert forall i :: 0 <= i < |granted| ==> granted[i] == c by {
          forall i | 0 <= i < |granted| ensures granted[i] == c {
            if i > 0 {
              assert granted[i] == rest[i - 1];
            }
          }
        }
      } else {
        assert m == n;
        assert granted == rest;
      }
    }
  }

  /** A voter whose log ends in a later term than the candidate's denies the
      vote, whether or not it has voted yet. */
  lemma StaleLogDenied(n: Node, a: VoteArgs)
    requires a.lastLogTerm < LastLogTerm(n.log)
    ensures !RequestVote(n, a).reply.voteGranted
  {
  }

  /** A reply from an earlier election still counts: a Candidate given a
      granted vote carrying an older term is promoted as soon as the count
      reaches a majority. */
  lemma StaleVoteCounts(n: Node, votes: nat, oldTerm: int)
    requires n.role == Candidate && oldTerm < n.currentTerm
    requires Majority(votes + 1, |n.nodes|)
    ensures OnVoteReply(n, votes, VoteReply(oldTerm, true)).step.node.role == Leader
  {
  }

  /** A sequence of vote replies delivered to one election's callback. */
  function CountVotes(n: Node, votes: nat, replies: seq<VoteReply>): (r: Tally)
    decreases |replies|
  {
    if replies == [] then Tally(Quiet(n), votes)
    else
      var first := OnVoteReply(n, votes, replies[0]);
      var rest := CountVotes(first.step.node, first.votes, replies[1..]);
      Tally(Then(first.step, rest.step), rest.votes)
  }

  /** Majority-gated promotion: a Candidate receiving only granted votes from
      its own or earlier terms ends as Leader exactly when its own vote plus the
      replies make a strict majority, after at least one reply. */
  lemma {:induction false} LeaderIffMajority(n: Node, votes: nat, replies: seq<VoteReply>)
    requires n.role == Candidate
    requires forall i :: 0 <= i < |replies| ==> replies[i].voteGranted && replies[i].term <= n.currentTerm
    ensures var r := CountVotes(n, votes, replies).step.node;
      && (r.role == Leader <==> |replies| > 0 && Majority(votes + |replies|, |n.nodes|))
      && (r.role != Leader ==> r.role == Candidate)
      && r.currentTerm == n.currentTerm
    decreases |replies|
  {
    if replies != [] {
      var first := OnVoteReply(n, votes, replies[0]);
      var m := first.step.node;
      if m.role == Leader {
        LeaderStaysLeader(m, first.votes, replies[1..]);
      } else {
        assert m == n;
        assert forall i :: 0 <= i < |replies[1..]| ==> replies[1..][i].voteGranted && replies[1..][i].term <= m.currentTerm;
        LeaderIffMajority(m, first.votes, replies[1..]);
      }
    }
  }

  /** Once promoted, the node ignores the remaining replies of the election. */
  lemma {:induction false} LeaderStaysLeader(n: Node, votes: nat, replies: seq<VoteReply>)
    requires n.role == Leader
    ensures CountVotes(n, votes, replies).step.node == n
    decreases |replies|
  {
    if replies != [] {
      LeaderStaysLeader(n, votes, replies[1..]);
    }
  }
}
