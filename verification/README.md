# Raft key-value node — a Dafny model

This project models one node of a small Raft-replicated key-value store:

- the `RaftNode` consensus engine of `src/raft.ts`, covering election, vote handling, heartbeats, the step-down timer, `appendEntries`, `applyLogEntries` and the client write path;
- the `KeyValueStore` map of `src/key-value-store.ts`;
- the command strings that `src/server.ts` writes into the log and decodes when an entry is committed.

The program is a set of event handlers on mutable state. Here every handler is a pure function from the node state (and its input) to a `Step`. A `Step` holds the new state plus the effects the handler requested, in order:

- timer operations;
- emitted RPC requests;
- entries emitted to the applied-state sink.

The vote and replication callbacks close over a counter (`votesReceived`, `replicatedCount`). Here that counter is an explicit input and output. An `appendEntries` call that raises a TypeError answers `Threw` instead of calling back. `RaftNode.Run` strings handlers together into one node's event loop and stops at the first throw.

Modules:

| file | module | contents |
|---|---|---|
| `wrappers.dfy` | `Wrappers` | `Option` |
| `key_value_store.dfy` | `KeyValueStore` | the store as a `map<string,string>` |
| `raft_state.dfy` | `RaftState` | node state, RPC records, effects, constructor, `becomeFollower`, `becomeLeader`, `applyLogEntries` |
| `raft_log.dfy` | `RaftLog` | the consistency check and the entry-merge loop, and `MergeSpec`, an independent statement of the Raft log rule |
| `raft_election.dfy` | `RaftElection` | `startElection`, its vote callback, `requestVote` |
| `raft_replication.dfy` | `RaftReplication` | `appendEntries`, heartbeats and their callback, the step-down timer, `clientRequest` and its callback |
| `raft_node.dfy` | `RaftNode` | the event loop and invariants over any run |
| `server.dfy` | `Server` | `split(' ')`, command encoding and decoding, the `newLogEntry` listener |
| `findings.dfy` | `Findings` | the two defects below, shown as written and corrected |

The program's behaviour is reproduced as written. This includes several behaviours a reader might not expect, and each has a lemma:

- a reply to an earlier election still counts (`StaleVoteCounts`);
- the step-down timer reopens the vote in the same term (`StepDownReopensVote`);
- the client can be told `true` more than once (`SuccessReportedAgain`);
- `commitIndex` can move backwards, even below `lastApplied` (`CommitIndexCanMoveBack`);
- a conflicting entry can truncate committed and applied entries, leaving `commitIndex` past the end of the log (`CommittedEntryTruncated`).

A Candidate that receives an AppendEntries for its own term stays a Candidate, as `becomeFollower` is only called for a newer term (`AppendEntriesAdoptsTerm` states that the role and vote are kept).

## Model

| member | source | states |
|---|---|---|
| KeyValueStore.Get | src/key-value-store.ts:8-10 | a key reads as a value iff it is bound, and then as its bound value; an unbound key reads as absent |
| KeyValueStore.Empty | src/key-value-store.ts:4-6 | a new store holds no key |
| KeyValueStore.Set | src/key-value-store.ts:12-14 | the key reads back the value; every other key reads as before; the key set grows by exactly the key |
| KeyValueStore.Delete | src/key-value-store.ts:16-18 | returns true iff the key was present; afterwards the key is absent and every other key reads as before |
| KeyValueStore.Clear | src/key-value-store.ts:20-22 | afterwards no key is present |
| KeyValueStore.DeleteAbsent | src/key-value-store.ts:16-18 | deleting an absent key returns false and leaves the store equal to what it was |
| RaftState.Peers | src/raft.ts:58-59 | the ids sent to are exactly the entries of `nodes` other than the node itself, each as often as it occurs there, so one RPC goes out per such entry |
| RaftState.Init | src/raft.ts:25-37 | a new node is a Follower in term 0 with no vote, an empty log, commit and applied indices 0, and its election timer armed; it satisfies the node invariant |
| RaftState.BecomeFollower | src/raft.ts:106-120 | a Follower given a term that is not newer is untouched; otherwise the node becomes a Follower of that term with no vote, resets its election timer and stops the heartbeat and step-down timers; the log and indices are kept |
| RaftState.BecomeLeader | src/raft.ts:82-92 | only a Candidate is promoted; promotion cancels the election timer and starts the heartbeat and step-down timers |
| RaftState.ApplyLogEntries | src/raft.ts:189-195 | `lastApplied` ends at the larger of itself and `commitIndex`; exactly the entries after the old `lastApplied` up to `commitIndex` are emitted, in index order; nothing else changes |
| RaftLog.ConsistencyCheck | src/raft.ts:162-163 | the check throws exactly when `prevLogIndex` is one past the end; it rejects exactly when the log is too short or holds another term at `prevLogIndex`; when it passes, the leader's previous entry is in the log with the expected term |
| RaftLog.Merge | src/raft.ts:169-178 | the log before `prevLogIndex + 1` is untouched; the log is long enough; every incoming entry's term sits at its index |
| RaftLog.MergeAtEnd | src/raft.ts:175-177 | writing at the end of the log appends every entry |
| RaftLog.MergeIsSpec | src/raft.ts:169-178 | the loop equals the Raft rule: the log is kept when every entry is present, and otherwise it is cut at the first term conflict and the remaining entries are appended |
| RaftLog.MergeIdempotent | src/raft.ts:169-178 | writing the same entries at the same position twice gives the same log as writing them once |
| RaftLog.MergeKeepsMatchingLog | src/raft.ts:170-174 | entries already present with their terms cause no truncation, including of entries past them |
| RaftElection.StartElection | src/raft.ts:46-64 | a Leader ignores the timer; any other node becomes a Candidate of the next term, votes for itself, resets its election timer and sends one RequestVote per peer describing its last entry |
| RaftElection.OnVoteReply | src/raft.ts:65-77 | only a Candidate reacts; a newer term makes it a Follower of that term with no vote and the step-down timer operations; a granted vote is counted, and reaching a strict majority promotes it to Leader with the promotion's timer operations; a denied reply, or a grant short of a majority, changes nothing; the node is Leader afterwards iff it was already or was promoted |
| RaftElection.RequestVote | src/raft.ts:197-228 | a stale term is denied with no change; the reply carries the larger of the two terms, which the node adopts; the vote is granted iff the term is current or newer, the node has no other vote in it, and the candidate's log is at least as up to date; a grant records the vote and re-arms the election timer after any step-down's timer operations; a denial for a newer term leaves a Follower of that term with no vote |
| RaftElection.OneCandidatePerTerm | src/raft.ts:217-220 | while the term does not change, every vote granted goes to one candidate, the one already voted for if there is one |
| RaftElection.StaleLogDenied | src/raft.ts:214-219 | a candidate whose last entry has an older term than the voter's is denied |
| RaftElection.StaleVoteCounts | src/raft.ts:65-76 | a granted reply from an earlier term still counts toward promotion |
| RaftElection.LeaderIffMajority | src/raft.ts:57-76 | a Candidate receiving granted votes ends as Leader iff its own vote plus the replies make a strict majority of `nodes`; otherwise it is still a Candidate in the same term |
| RaftElection.LeaderStaysLeader | src/raft.ts:66-68 | once Leader, the node ignores the remaining replies of the election |
| RaftReplication.Admit | src/raft.ts:156-160 | a current or newer term re-arms the election timer first; a newer term then makes the node a Follower of that term with no vote, re-arming the election timer again, stopping heartbeats and cancelling the step-down timer; the same term changes nothing else |
| RaftReplication.Commit | src/raft.ts:180-184 | a larger `leaderCommit` sets `commitIndex` to `min(leaderCommit, lastNewIndex)` and applies up to it; otherwise nothing changes |
| RaftReplication.Written | src/raft.ts:169-178 | after the append loop the log reaches past the last new index, and no entries leave the log unchanged |
| RaftReplication.WrittenInstalls | src/raft.ts:169-178 | after the append loop every incoming entry's term sits at its index after `prevLogIndex`, and the log up to `prevLogIndex` is untouched |
| RaftReplication.Accept | src/raft.ts:168-186 | the success path replaces the log by the written one and sets `commitIndex` to the new commit index, changes nothing else except moving `lastApplied` forward, and starts no timer and sends nothing |
| RaftReplication.WrittenFollowsRaftRule | src/raft.ts:169-178 | the log after the append loop is the one the Raft rule prescribes |
| RaftReplication.AcceptApplies | src/raft.ts:180-195 | after a passed check, a larger `leaderCommit` makes the node emit exactly the entries after `lastApplied` up to the new commit index; otherwise nothing is emitted |
| RaftReplication.Checked | src/raft.ts:162-186 | from the consistency check on, the handler throws exactly when `prevLogIndex` is one past the end (or below -1 with entries), answers success iff the previous entry matches, and changes nothing unless it succeeds |
| RaftReplication.AppendEntries | src/raft.ts:143-187 | a stale term is rejected with no change; the handler throws exactly when `prevLogIndex` is one past the end (or below -1 with entries); the reply carries the larger term and succeeds iff the term is not stale and the log holds the leader's previous entry; the invariant holds and the term and `lastApplied` never go back |
| RaftReplication.AppendEntriesAdoptsTerm | src/raft.ts:151-160 | a current or newer term re-arms the election timer first, sends nothing and is adopted; a newer term makes the node a Follower with no vote, re-arms the election timer again, stops heartbeats and cancels the step-down timer, while the same term keeps the role (a Candidate stays Candidate) and the vote and requests nothing more |
| RaftReplication.AppendEntriesRejectKeepsLog | src/raft.ts:151-166 | any answer other than success leaves the node id, the cluster, the log, commit index and `lastApplied` alone and emits nothing |
| RaftReplication.AppendEntriesAccepts | src/raft.ts:151-186 | a successful answer means the term was not stale and the previous index lies inside the log, and the resulting state and emitted entries are those of the success path run after the term step |
| RaftReplication.AppendEntriesSuccess | src/raft.ts:168-184 | on success the entries are installed after `prevLogIndex` with the log before it untouched, and the commit index is `min(leaderCommit, lastNewIndex)` when `leaderCommit` is larger |
| RaftReplication.AppendEntriesApplies | src/raft.ts:180-195 | on success exactly the entries after `lastApplied` up to the new commit index are emitted, in order, and nothing when `leaderCommit` is not larger |
| RaftReplication.AppendEntriesFollowsRaftRule | src/raft.ts:168-178 | on success the new log is the one the Raft rule prescribes |
| RaftReplication.AcceptIdle | src/raft.ts:168-186 | on a node already holding the entries with their terms and with nothing left to commit, the success path changes nothing and emits nothing |
| RaftReplication.CheckPassesAfterWrite | src/raft.ts:162-178 | a log that passed the consistency check still passes it after the entries are written |
| RaftReplication.AcceptedCheckPasses | src/raft.ts:151-166 | after an accepted delivery, the same arguments pass the term and consistency checks again without throwing |
| RaftReplication.AcceptedEntriesInPlace | src/raft.ts:168-186 | after an accepted delivery, the entries sit at their indices and nothing is left to commit for them |
| RaftReplication.AppendEntriesIdempotent | src/raft.ts:143-187 | re-delivering accepted arguments succeeds again, leaves the node as it was and emits nothing |
| RaftReplication.SendHeartbeat | src/raft.ts:122-131 | one empty AppendEntries per peer carrying the term, the sender's id as leader, the last log index and term, and the commit index; the state is unchanged |
| RaftReplication.HeartbeatAcceptedByMatchingFollower | src/raft.ts:162-186 | a follower with the leader's log accepts its heartbeat, keeps its log and follows the leader's commit index |
| RaftReplication.OnHeartbeatReply | src/raft.ts:132-138 | a newer term makes the node a Follower; otherwise a Leader re-arms its step-down timer, whatever the peer answered |
| RaftReplication.StepDownTimeout | src/raft.ts:98-103 | a Leader becomes a Follower of its own term with no vote; other roles are untouched |
| RaftReplication.StepDownReopensVote | src/raft.ts:98-103 | a Leader denies another candidate of its term, but after the step-down timer it grants that same candidate's vote |
| RaftReplication.CommitAll | src/raft.ts:244-245 | committing the whole log sets `commitIndex` to the last index and emits exactly the entries after `lastApplied`, moving `lastApplied` up to the last index |
| RaftReplication.ClientRequest | src/raft.ts:230-276 | a non-leader answers false with no change; a Leader appends one entry of its term and sends it to every peer, keeping every other field (id, cluster, role, term, vote); in a cluster of one it also commits and applies at once and answers true, and otherwise it answers nothing yet |
| RaftReplication.ReplicationAcceptedByMatchingFollower | src/raft.ts:253-259 | a follower holding the leader's log from before the command accepts the replicated entry and ends with the leader's new log |
| RaftReplication.OnReplicationReply | src/raft.ts:240-266 | a newer term makes the node a Follower of that term with no vote, with the step-down timer operations, and fires nothing; a success is counted, and a majority sets `commitIndex` to the last index, applies the newly committed entries and answers true; anything else changes nothing |
| RaftReplication.SuccessReportedAgain | src/raft.ts:240-247 | after the majority is reached, a further success fires the client callback again |
| RaftReplication.CommitIndexCanMoveBack | src/raft.ts:180-183 | an accepted AppendEntries with a large `leaderCommit` but a short last new index lowers `commitIndex`; when nothing was waiting to be applied, it ends below `lastApplied` |
| RaftReplication.CommittedEntryTruncated | src/raft.ts:169-183 | an accepted AppendEntries whose one entry conflicts with a committed entry cuts the log there and appends it, keeping `commitIndex` and `lastApplied`; when a later entry was committed too, `commitIndex` ends past the end of the log |
| RaftNode.Handle | src/raft.ts:43-276 | handling any event keeps the node invariant and never lowers the term or `lastApplied`; only AppendEntries can throw, and exactly on the inputs where it does |
| RaftNode.RunKeepsInvariants | src/raft.ts:46-276 | over any sequence of events the node invariant holds and the term and `lastApplied` never go back |
| RaftNode.ReachableNodes | src/raft.ts:25-37 | every node reachable from construction satisfies the invariant and has `lastApplied >= 0` |
| RaftState.FirstEntryNeverApplied | src/raft.ts:189-195 | from a node with `lastApplied >= 0`, every emitted entry is the log entry at an index of at least 1, so the first log entry is never applied |
| Server.Split | src/server.ts:27 | `split(' ')` gives at least one piece, and no piece contains a space |
| Server.JoinSplit | src/server.ts:27 | joining the pieces with single spaces gives back the original command |
| Server.SplitJoin | src/server.ts:27 | splitting space-free tokens joined by single spaces gives back the tokens |
| Server.Decode | src/server.ts:27-38 | a decoded key or value never contains a space, since the command is split on single spaces |
| Server.DecodeFollowsRoute | src/server.ts:27-38 | a command decoded as SET, DELETE or CLEAR starts with what the matching route encodes for the decoded key and value; whatever follows is dropped |
| Server.OnNewLogEntry | src/server.ts:26-39 | SET with a key and a value binds the key and keeps every other key; DELETE removes the key and keeps every other key; CLEAR empties the store; any other action leaves it unchanged |
| Server.ApplyAllConcat | src/server.ts:26-39 | applying two batches of committed entries in turn equals applying their concatenation |
| Server.SetRoundTrip | src/server.ts:64 | a PUT command for a key and value without spaces decodes to that SET |
| Server.DeleteRoundTrip | src/server.ts:76 | a DELETE command for a key without spaces decodes to that DELETE |
| Server.ClearRoundTrip | src/server.ts:88 | the clear command decodes to CLEAR |
| Server.SetValueTruncated | src/server.ts:27-30 | a value containing spaces is stored cut at its first space |
| Server.SetThenGet | src/server.ts:27-30 | once a PUT's entry is applied, the key reads back the value |
| Findings.HeartbeatCrashesLaggingFollower | src/raft.ts:162-163 | a follower missing only the leader's last entry throws on the leader's heartbeat |
| Findings.ConsistencyCheckFixed | src/raft.ts:162-163 | with `<=` the check never reads outside the log, and it passes iff the leader's previous entry is present with its term |
| Findings.AppendEntriesFixed | src/raft.ts:143-187 | never throws on an RPC the program builds; agrees with the original wherever the original answers; where the original threw on an index one past the end it rejects after only the term step, keeping log, commit index and `lastApplied`; it still throws exactly on an index below -1 with entries, which the correction does not address |
| Findings.HeartbeatRejectedByLaggingFollower | src/raft.ts:162-166 | with the fix, the lagging follower rejects the heartbeat and keeps its log |
| Findings.ScenarioRuns | src/raft.ts:231-247 | from any fresh Follower of a 3-node cluster, winning the election, writing and getting one acknowledgement tells the client success and commits index 0; the write reaches the sink exactly when `lastApplied` starts below 0 |
| Findings.FirstWriteNeverApplied | src/raft.ts:31-32 | in a 3-node cluster the first write is acknowledged to the client, yet nothing is applied and the key stays absent |
| Findings.InitFixed | src/raft.ts:25-37 | the corrected constructor sets commit and applied indices to the last index of the empty log, and its step (node, timers, sent and applied) differs from the original in nothing else |
| Findings.FixedAppliesFromFirstEntry | src/raft.ts:189-195 | from the corrected state, committing up to any index emits every entry from the first one on |
| Findings.FirstWriteCommitted | src/raft.ts:31-32 | with the corrected constructor the same scenario commits index 0 and emits the write to the sink |
| Findings.FirstWriteApplied | src/raft.ts:31-32 | with the corrected constructor the key then reads back the written value |

## Left out

- Timers and randomness are not modelled. The randomized election timeout, the 50 ms heartbeat interval and the 500 ms step-down timeout (src/raft.ts:39-44, 89, 94-104) become `TimerOp` requests in each `Step`. Which timer fires next is an input event of `RaftNode.Run`.
- Timer cancellation is requested unconditionally. The program first checks whether its handle is set, and cancelling a timer that is not running has no effect.
- The event emitter and the wiring in src/server.ts:41-47 are not modelled. The program sends every emitted RPC back to the emitting node itself, because the events carry no destination. Emitted RPCs appear in `Step.sent` as one copy per peer. The replies arrive as separate events. A cluster-wide model of delivery is therefore not part of this model.
- Cluster-wide properties, such as one leader per term across nodes or log matching across nodes, are not stated. They depend on the transport, which the program does not have.
- Logging with `console.log` is not modelled. It has no effect on state.
- The HTTP layer is not modelled: Express, the GET route, status codes, `res.headersSent`, `close`, and `cleanup` (src/raft.ts:278-293). The command strings the routes build are modelled.
- The client (src/client.ts), the demo and the test scripts are not part of this model.
- `Server.Decode`: a SET with fewer than three tokens, or a DELETE with fewer than two, is decoded as `Malformed` and leaves the store unchanged. The program would pass `undefined` as the key or value. The routes never produce such commands.
- The PUT route's `value` is taken to be a string. The program interpolates whatever JSON value the body holds.
- Numbers are unbounded integers. Terms and indices are JavaScript doubles in the program. `votes > nodes.length / 2` is stated exactly as `2 * votes > |nodes|`.
- RaftState.ApplyLogEntries: requires that `commitIndex` lies inside the log whenever there is something to apply. Past the end the program would emit `undefined`. Every caller establishes the requirement.
- RaftNode.Handle: states the invariants each event keeps, not its effect. The effect of each event is the contract of its handler.
- `commitIndex` is not claimed to be monotone, because it is not (`RaftReplication.CommitIndexCanMoveBack`). The client callback is not claimed to fire exactly once, because it does not (`RaftReplication.SuccessReportedAgain`). Standard Raft keeps `commitIndex` monotone and reports a write once; the model follows the code.
- `lastApplied <= commitIndex <= |log|` is not claimed as an invariant, and neither is that committed entries stay in the log. An accepted AppendEntries can lower `commitIndex` below `lastApplied` (`RaftReplication.CommitIndexCanMoveBack`). A conflicting entry truncates committed and applied entries, leaving `commitIndex` past the end of the log (`RaftReplication.CommittedEntryTruncated`). Ruling this out needs the cluster-wide argument left out above.
- Standard Raft addresses each RPC to one peer. The code emits RPCs without a destination, and the model follows the code.

## Findings

| source | as written | input that shows it | evidently intended | confidence | as-written member | corrected member |
|---|---|---|---|---|---|---|
| src/raft.ts:162-163 | `this.log.length < args.prevLogIndex` lets `prevLogIndex == log.length` through, and `this.log[args.prevLogIndex].term` then throws a TypeError | a follower with log `[e1]` receives a heartbeat from a leader with log `[e1, e2]` (so `prevLogIndex = 1`) | `this.log.length <= args.prevLogIndex`: reject, so the follower answers `success: false` | high, not executed | Findings.HeartbeatCrashesLaggingFollower | Findings.AppendEntriesFixed |
| src/raft.ts:31-32 | `commitIndex` and `lastApplied` start at 0 while log indices are 0-based, so `applyLogEntries` begins at index 1 and the first entry is never applied | 3 nodes: node1 wins term 1, then `clientRequest("SET k v1")`, then one peer acks; the client is told success, but nothing reaches the store and `k` is absent | both start at -1, so the first committed entry (index 0) is applied | high, not executed | Findings.FirstWriteNeverApplied | Findings.InitFixed |
