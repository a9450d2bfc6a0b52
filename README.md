# Raft KV: a Dafny model of the consensus core and the key-value store

This project models the core of a small Raft-replicated key-value server written in Go:

- **one Raft server** (`Raft.RaftNode`, from `pkg/raft/raft.go`, `election.go`, `replication.go`):
  the role, term and vote transitions of an election, the vote tally, the follower's
  AppendEntries handler with its consistency check and conflict hint, the leader's
  argument construction and reply handling, the median commit rule and the loop that
  applies committed entries;
- **the snapshot store's bookkeeping** (`Snapshots.SnapshotStore`, from
  `pkg/kvstore/snapshot.go`): the latest snapshot, the list of retained ones, retention of
  the newest three and the lookup by index;
- **the key-value state machine** (`KvStore.Store`, from `pkg/kvstore/store.go`): reads,
  applying SET/DELETE commands, and the command a proposal builds.

Each handler of the source runs under the node's mutex, so each becomes one atomic method of
a class whose fields are the struct's fields; `modifies` and `ensures` state the whole new
state. The arithmetic behind the handlers lives in pure modules, where the properties are
proved as lemmas:
- `RaftLog`: index arithmetic over the log;
- `CommitRules`: sorting, the median and the counts behind it;
- `ElectionRules`: the timeout, the quorum and the tally.

The log is 0-based and index -1 means "before the first entry", as in the source. A Go map
read of a missing key yields 0, and the leader's reads of `nextIndex` keep that default. Log commands are opaque byte strings.

Five defects surfaced while stating the natural contracts (see "## Findings"). In each case
the code as written is modelled by a pure function, with a lemma that exhibits the
problem. The class `Raft.RaftNode` then uses the corrected behaviour.

## Model

| member | source | states |
|---|---|---|
| RaftLog.FindLastIndexForTerm | pkg/raft/replication.go:81 | the largest index holding an entry of the term, or -1 when none does (findLastIndexForTerm is not part of this model; this is the reading used) |
| RaftLog.Consistent | pkg/raft/replication.go:147-148 | the consistency check passes exactly when PrevLogIndex is -1, or lies inside the log with an entry of PrevLogTerm |
| RaftLog.LastOtherTermBefore | pkg/raft/replication.go:153-158 | the backward scan's stopping point: the nearest earlier entry of another term, every entry in between having the conflicting term |
| RaftLog.LastOtherTermBeforeUnique | pkg/raft/replication.go:153-158 | any index with those three properties is the scan's result, so the loop computes exactly it |
| RaftLog.ConflictIndexAsWritten | pkg/raft/replication.go:150-158 | the ConflictIndex as written: the start of the conflicting term's run, or the log length when that run reaches index 0 |
| RaftLog.ConflictHintAsWritten | pkg/raft/replication.go:147-159 | as written, a rejection past the end carries (log length, 0); otherwise the term at PrevLogIndex, with either the log length when every entry up to PrevLogIndex has that term, or an index just past an entry of another term from which the run reaches PrevLogIndex |
| RaftLog.FirstIndexOfTermRun | pkg/raft/replication.go:150-158 | the corrected ConflictIndex: the first index of the run of the conflicting term that ends at PrevLogIndex |
| RaftLog.ConflictHint | pkg/raft/replication.go:147-159 | a rejection past the end carries (log length, 0); otherwise it carries the term at PrevLogIndex and the first index of its run |
| RaftLog.ConflictHintsAgreeUnlessRunStartsLog | pkg/raft/replication.go:150-158 | the corrected and as-written hints differ exactly when every entry up to PrevLogIndex has the conflicting term |
| RaftLog.AcceptedLog | pkg/raft/replication.go:163 | the log as written after an accepted request: the prefix through PrevLogIndex unchanged, then exactly the leader's entries, so it is shorter than before whenever PrevLogIndex+1+len(entries) is below the old length |
| RaftLog.FollowerCommitAsWritten | pkg/raft/replication.go:163-166 | as written, a larger LeaderCommit sets commitIndex to LeaderCommit or to the index of the last new entry, whichever is smaller; otherwise commitIndex is unchanged; it moves back exactly when LeaderCommit is larger and the last new entry lies below the old commitIndex |
| RaftLog.FollowerCommit | pkg/raft/replication.go:163-166 | the corrected commit index never moves back; when it moves it is LeaderCommit or the index of the last new entry and past neither; it moves whenever both lie above it |
| RaftLog.FollowerCommitAgreesUnlessMovingBack | pkg/raft/replication.go:163-166 | the corrected and as-written commit indices differ exactly when the as-written one moves back |
| RaftLog.MergeEntries | pkg/raft/replication.go:163 | the corrected merge keeps the prefix through PrevLogIndex, puts an entry of the leader's term at each of the leader's indices (the leader's entry, or the old one when the terms agree), and either leaves the log as it was or ends it with the last leader entry |
| RaftLog.MergeWithConflictEndsWithEntries | pkg/raft/replication.go:163 | when some leader entry conflicts, the corrected merge changes the log and cuts it after the leader's entries |
| RaftLog.MergeWithoutConflictKeepsLog | pkg/raft/replication.go:163 | when no leader entry conflicts, the corrected merge keeps the whole old log as a prefix |
| RaftLog.MergeKeepsCommitted | pkg/raft/replication.go:163-166 | when no leader entry conflicts, every committed entry survives the corrected merge, and commitIndex stays inside the log |
| RaftLog.StaleHeartbeatMovesCommitBack | pkg/raft/replication.go:163-166 | a late heartbeat with prevLogIndex below the commit index and a larger LeaderCommit moves the commit index as written back below lastApplied; the corrected commit index and merge leave both as they were |
| RaftLog.StaleAppendTruncatesCommitted | pkg/raft/replication.go:163 | a late request that passes the consistency check cuts a committed entry off the log as written; the follower's commitIndex is then past its end; the corrected merge leaves the log as it was |
| RaftLog.AppendArgs | pkg/raft/replication.go:41-61 | the request for a peer: prevLogIndex is nextIndex-1 with that entry's term (0 before the log), and the entries are exactly the rest of the leader's log |
| RaftLog.FollowerCatchesUp | pkg/raft/replication.go:41-61 | a follower agreeing below nextIndex accepts the request and ends with the leader's log, whose last index is the matchIndex recorded |
| RaftLog.NextIndexAfterReject | pkg/raft/replication.go:79-90 | after a rejection, nextIndex is one past the leader's last entry of ConflictTerm when it has one, else ConflictIndex |
| RaftLog.ConflictIndexStallsAtLogStart | pkg/raft/replication.go:150-158 | with the as-written hint, a rejection sends the leader back to the nextIndex it used, and for a longer follower log it sets nextIndex past the end of the leader's log |
| RaftLog.FirstIndexOfTermRunBacktracks | pkg/raft/replication.go:150-158 | with the corrected hint, a rejection for a term the leader lacks always moves nextIndex strictly back |
| RaftLog.ApplyRange | pkg/raft/replication.go:119-127 | one message per index in (lastApplied, commitIndex], in increasing order, each with that entry's command |
| RaftLog.ApplyRangeSplit | pkg/raft/replication.go:119-127 | applying in two rounds delivers the same messages as one round, so no index is delivered twice |
| ElectionRules.RandomTimeout | pkg/raft/election.go:144-147 | for every draw in [0, max-min) the timeout lies in [1500 ms, 3000 ms) |
| ElectionRules.Quorum | pkg/raft/election.go:90 | (peersCount+1)/2+1 is a strict majority of the peersCount+1 nodes, the smallest one, and no more than all of them |
| ElectionRules.QuorumsIntersect | pkg/raft/election.go:90 | two quorums share a node, and so does a quorum with the ceil(n/2) holders the commit rule counts |
| ElectionRules.TallyElects | pkg/raft/election.go:86-102 | as written, an election implies that some vote was granted and that the own vote plus the granted ones form a strict majority |
| ElectionRules.TallyElectsIff | pkg/raft/election.go:90-101 | as written, the candidate wins exactly when some vote is granted and its own vote plus the granted ones reach the quorum |
| ElectionRules.SingleNodeNeverElected | pkg/raft/election.go:90-101 | with no peers the quorum is 1, yet the tally as written never elects |
| ElectionRules.IntendedTallyElects | pkg/raft/election.go:86-102 | the corrected tally elects exactly when the own vote plus the granted ones form a strict majority of the nodes |
| ElectionRules.IntendedTallyAgrees | pkg/raft/election.go:90-101 | the corrected tally elects a lone node and agrees with the as-written one whenever there is a peer |
| CommitRules.SortInts | pkg/raft/replication.go:105 | the result is sorted and a permutation of the input |
| CommitRules.SortedUnique | pkg/raft/replication.go:105 | two sorted permutations of the same values are equal, so the sort's result is determined by the values |
| CommitRules.Median | pkg/raft/replication.go:105-106 | the element at n/2 of the sorted values is one of the values |
| CommitRules.MedianOrderIndependent | pkg/raft/replication.go:99-106 | the element at n/2 does not depend on the order a range over the map collects the match indices in |
| CommitRules.MedianIsHighestHalfReached | pkg/raft/replication.go:105-106 | the element at n/2 is one of the values, at least ceil(n/2) values reach it, and no higher value is reached by that many |
| CommitRules.MapValuesRemove | pkg/raft/replication.go:100-102 | the map's values are the removed key's value plus the values of the rest, whatever key is taken first |
| CommitRules.CommitValues | pkg/raft/replication.go:99-103 | one value per peer plus one; the leader's last index and every match index are among them, nothing else is, and they are the match indices plus the last index counted with multiplicity |
| CommitRules.MatchesInLogCandidateInRange | pkg/raft/replication.go:108-109 | when every match index lies inside the log, the candidate does too, so its term lookup is safe |
| CommitRules.LeaderCommit | pkg/raft/replication.go:98-113 | commitIndex never moves back; it moves only to an entry of the current term, the highest index reached by ceil(n/2) of the n values |
| CommitRules.MatchIndexAtElectionAsWritten | pkg/raft/election.go:109-112 | as written, the map covers exactly the peers; its values lie inside any non-empty log but outside an empty one |
| CommitRules.MatchIndexZeroCommitsPastLog | pkg/raft/election.go:111 | with those zeros, a leader with an empty log and three peers selects a candidate at or past index 0, outside its log |
| CommitRules.MatchIndexZeroCommitsUnreplicated | pkg/raft/election.go:111 | with those zeros, a leader with one entry of its term and two peers, one of which has acknowledged only an empty heartbeat (-1), commits entry 0 although no peer is known to hold it |
| Raft.RaftNode.constructor | pkg/raft/raft.go:7-24 | a follower in term 0 with an empty log that has voted for nobody |
| Raft.RaftNode.StepDown | pkg/raft/election.go:117-121 | follower in the given term with no vote, all else unchanged |
| Raft.RaftNode.StartNewElection | pkg/raft/election.go:37-50 | the term goes up by one; the node is a candidate that voted for itself with one vote; the request carries the new term, its id, the last log index and the last entry's term (0 for an empty log; getLastLogInfo is not part of this model, this is the reading used) |
| Raft.RaftNode.ElectionTimerFired | pkg/raft/election.go:20-29 | a leader starts no election and changes nothing; any other node starts one and returns the request with the new term, its id, the last log index and that entry's term |
| Raft.RaftNode.HandleVoteReply | pkg/raft/election.go:59-79 | an RPC error, a refusal or a later term counts as false; a later term steps the node down; a grant whose term is not above the node's term counts as true, including one from an older term, as the source does not check it |
| Raft.RaftNode.BecomeLeader | pkg/raft/election.go:104-115 | leader; every peer's nextIndex is one past the last index and its matchIndex is -1 (corrected from 0), so every match index lies inside the log |
| Raft.RaftNode.CountVotes | pkg/raft/election.go:86-102 | with one vote per peer, the node becomes leader exactly when it is still a candidate and the corrected tally elects; otherwise role and peer maps are unchanged |
| Raft.RaftNode.HandleAppendEntries | pkg/raft/replication.go:130-171 | the reply carries the term on arrival; a stale request changes nothing; a later term is adopted first; a failed check returns the corrected conflict hint (ConflictHint, where the source computes ConflictHintAsWritten); otherwise the entries are merged and commitIndex follows LeaderCommit by the corrected rule, which never moves it back, and when it moves it lies inside the log |
| Raft.RaftNode.ReplicationArgs | pkg/raft/replication.go:38-61 | the request built from the peer's nextIndex (0 for a peer the map does not hold, as a Go map read gives) is AppendArgs of the leader's state: the entry before nextIndex is the consistency point and the entries are the rest of the log |
| Raft.RaftNode.HandleAppendReply | pkg/raft/replication.go:65-96 | an RPC error changes nothing; a later term steps down; a refusal moves nextIndex by the hint; a success sets nextIndex and matchIndex past what was sent and applies the commit rule |
| Raft.RaftNode.CollectMatchIndices | pkg/raft/replication.go:99-102 | the collected values are a permutation of the map's values |
| Raft.RaftNode.UpdateCommitIndex | pkg/raft/replication.go:98-113 | commitIndex becomes LeaderCommit of the peer maps and the log; nothing else changes |
| Raft.RaftNode.ApplyLogs | pkg/raft/replication.go:115-128 | the messages are exactly ApplyRange(old lastApplied, commitIndex), and lastApplied ends at commitIndex, which it never exceeds |
| Raft.RaftNode.BroadcastAppendEntries | pkg/raft/replication.go:21-36 | a non-leader sends nothing; a leader targets each peer other than itself exactly once |
| Snapshots.Retain | pkg/kvstore/snapshot.go:197-210 | at most three snapshots kept, all kept when there are at most three, and those kept are the newest, in order |
| Snapshots.Dropped | pkg/kvstore/snapshot.go:202-207 | the snapshots cleanup deletes are a prefix of the list: none when at most three are held, otherwise all but the newest three |
| Snapshots.DroppedThenRetained | pkg/kvstore/snapshot.go:197-210 | the deleted snapshots followed by the retained ones are the whole old list, so cleanup loses and duplicates nothing |
| Snapshots.RetainKeepsNewest | pkg/kvstore/snapshot.go:197-210 | retention keeps the newest snapshot and keeps the indices increasing |
| Snapshots.RetainKeepsBound | pkg/kvstore/snapshot.go:197-210 | retention keeps every index at or below a bound the old list respected |
| Snapshots.RetainIdempotent | pkg/kvstore/snapshot.go:197-210 | a second cleanup keeps what the first kept |
| Snapshots.AppendPastNewestIncreasing | pkg/kvstore/snapshot.go:60-102 | appending a snapshot past the newest keeps the indices strictly increasing |
| Snapshots.FirstWithIndex | pkg/kvstore/snapshot.go:163-164 | the position of the first retained snapshot with the index, None exactly when there is none |
| Snapshots.IncreasingIndexUnique | pkg/kvstore/snapshot.go:163-164 | with increasing indices the first match is the only one |
| Snapshots.RecordKeepsWellFormed | pkg/kvstore/snapshot.go:94-105 | recording a snapshot past the latest and cleaning up keeps the indices increasing, at most three retained and none past the latest, with the new snapshot the newest retained |
| Snapshots.SnapshotStore.constructor | pkg/kvstore/snapshot.go:41-54 | no retained snapshots, and as latest what loading the newest file produced |
| Snapshots.SnapshotStore.CreateSnapshot | pkg/kvstore/snapshot.go:56-107 | a stale index or a failed create or encode returns its error and changes nothing; on success the new metadata is the latest and the newest retained, at most three are kept, and the files of the dropped ones are removed |
| Snapshots.SnapshotStore.Record | pkg/kvstore/snapshot.go:94-105 | the new metadata becomes the latest and the newest retained snapshot, the retained list is Retain of the old list with it appended, the files removed are those of the dropped ones, and the store stays well formed |
| Snapshots.SnapshotStore.CleanupOldSnapshots | pkg/kvstore/snapshot.go:197-210 | the snapshots become Retain of the old list, and the files removed are named by the timestamps of the dropped ones, one per snapshot, oldest first |
| Snapshots.SnapshotStore.GetSnapshot | pkg/kvstore/snapshot.go:159-195 | "not found" exactly when no retained snapshot has the index; otherwise the first match's file is read back: a missing file fails to open, a corrupt one fails to decode, and a stored one yields its snapshot |
| Snapshots.CreatedSnapshotFound | pkg/kvstore/snapshot.go:101-105 | after a snapshot is recorded, looking up its index finds it as the newest retained one |
| KvStore.Applied | pkg/kvstore/store.go:32-41 | SET writes the key, DELETE removes it, any other operation changes nothing, and no other key changes |
| KvStore.ReplayLastWriteWins | pkg/kvstore/store.go:32-41 | after applying a sequence of commands, a key holds what its last SET wrote, is absent after a last DELETE, and is unchanged if untouched |
| KvStore.Propose | pkg/kvstore/store.go:23-30 | the command is SET of the pair, and applying it makes the key hold the value in any map |
| KvStore.Store.constructor | pkg/kvstore/store.go:8-12 | a store over the given map |
| KvStore.Store.Get | pkg/kvstore/store.go:14-21 | the stored value for a present key; "" with ErrKeyNotFound otherwise; nothing changes |
| KvStore.Store.ApplyLog | pkg/kvstore/store.go:32-41 | the map becomes Applied of the old map and the command |

## Left out

- Goroutines, channels (`applyCh`, `voteChan`, `resetTimerCh`, `stopCh`), tickers and the mutexes are not modelled. Each locked handler is one atomic method. Vote replies arrive as a sequence of booleans; applied entries are returned as a sequence of messages.
- `countVotes` holds the node's mutex while it reads the vote channel, and the vote goroutines take that mutex before sending. The two can wait on each other for ever. The model runs them one after the other, so this deadlock is not captured.
- `runElectionTimer`'s select, `sendHeartbeats` and `periodicSnapshot` are timer loops and are not modelled; only the Leader check on expiry is. `resetElectionTimer` is not part of this model, and HandleAppendEntries does not model its call.
- The gRPC transport (`pkg/raft/rpc.go`, `pkg/api`), the HTTP front end, `cmd/server` and the metrics are left out. A sent RPC is modelled as a reply or an error (`Option`).
- `Raft.Run`, `runFollower` and `startElection` in `pkg/raft/raft.go` are an older, superseded driver loop and are not modelled. From that file only the `RaftNode` struct is used.
- `HandleRequestVote`, install-snapshot and log compaction are not modelled.
- Snapshot file I/O is abstracted: gob and gzip encoding, file names, `os.Create`, `os.Remove` and `file.Stat`. Creating and encoding come in as a `WriteOutcome`. Reading back comes in as a map from a snapshot's timestamp to what its file decodes to. `removed` lists the timestamps of the files cleanup deletes.
- `loadLatestSnapshot` is not modelled; the constructor takes what it produced as a parameter. It sets `latest` but does not add the loaded snapshot to the retained list, and the model keeps that.
- Snapshot file names: `CreateSnapshot` names the file from one clock reading in UTC, and stores another reading in local time in the metadata. `GetSnapshot` and cleanup format the metadata time. The two names need not agree. The model keys files by the metadata time, so it does not capture this mismatch.
- Command payloads are `interface{}` in the source. They are opaque byte strings here, and the bytes a snapshot stores only reach its file.
- `Store.Propose` hands the command to the Raft node, which is not part of this model. Only the command it builds is modelled. The source's `Store` has no constructor, so the model's takes the initial map.
- Type confusions in the source are not modelled. `peers` is a `[]string` yet `becomeLeader` reads `peer.id`. `startNewElection` sets `votesReceived`, which the `RaftNode` struct in `pkg/raft/raft.go` does not declare; the model adds it as a field. `rn.log.LastIndex()` is called on a slice. `broadcastAppendEntries` ranges over the slice's indices as peer ids. The model takes peers as a set of integer ids, keyed like the `nextIndex` and `matchIndex` maps.
- The reply handler in `replicateToPeer` does not check that the node is still leader, or still in the term of the request, before it updates the maps. The model keeps this, but states no invariant across terms.
- Raft.RaftNode.constructor: `NewRaftNode` is not part of this model. The initial values are an assumption: follower, term 0, votedFor -1, an empty log, and commitIndex and lastApplied at -1. The fourth finding depends on commitIndex starting at -1, below every index of the log.
- Raft.RaftNode.CountVotes: requires one vote per peer. The source reads exactly peersCount votes from the channel, and its quorum is computed from peersCount.
- A candidate that receives an AppendEntries of its own term stays a candidate, as in the source.
- Raft.RaftNode.HandleAppendEntries: requires `prevLogIndex >= -1` on a non-stale request, because a smaller index makes the source slice the log with a negative bound.
- Raft.RaftNode.HandleAppendReply: requires every match index to lie inside the log, and a successful reply to acknowledge no more entries than the log holds. The source has no such precondition. These facts hold for a leader that only appends, but the model does not prove them across messages.
- Raft.RaftNode.UpdateCommitIndex: requires every match index to lie inside the log. The source's term lookup would otherwise index outside the log (see the fourth finding).
- Raft.RaftNode.ApplyLogs: requires `commitIndex` to lie inside the log when it is ahead of `lastApplied`, which the source's loop needs in order to read each entry.
- Raft.RaftNode.ReplicationArgs: requires the peer's nextIndex to lie in [0, length of the log], which the source needs in order to read the entry before it and slice the rest.
- Snapshots.SnapshotStore.CreateSnapshot: requires a latest snapshot, because the source dereferences `latest` without checking it for nil.
- CommitRules.MatchIndexZeroCommitsPastLog: shows that the candidate lies at or past index 0, and so outside the empty log. It does not compute the exact index.

## Findings

| source | as written | input that shows it | evidently intended | confidence | as-written member | corrected member |
|---|---|---|---|---|---|---|
| pkg/raft/replication.go:150-158 | ConflictIndex stays at the log length when every entry up to PrevLogIndex has the conflicting term | leader log with terms [1, 3] and nextIndex 1; follower log with terms [2] (nextIndex stays 1); follower log with terms [2, 2, 2, 2, 2] (nextIndex becomes 5, past the leader's log) | ConflictIndex is the first index of that run (0 here), so the leader backs up | high, not executed | RaftLog.ConflictIndexStallsAtLogStart | RaftLog.FirstIndexOfTermRunBacktracks |
| pkg/raft/replication.go:163 | an accepted request always cuts the log after its entries, even when the follower already holds them | follower log with terms [1, 1, 1] and commitIndex 2; late request with prevLogIndex 0, prevLogTerm 1, entries [term 1] | only conflicting entries are replaced (section 5.3 of the Raft paper), so committed entries survive | medium, not executed | RaftLog.StaleAppendTruncatesCommitted | RaftLog.MergeKeepsCommitted |
| pkg/raft/election.go:90-101 | with no peers the tally never reaches its check, so a lone node never becomes leader | peersCount 0: quorum 1, no vote arrives | the candidate's own vote meets the quorum of 1 | medium, not executed | ElectionRules.SingleNodeNeverElected | ElectionRules.IntendedTallyAgrees |
| pkg/raft/election.go:111 | a new leader records matchIndex 0 for every peer, which in a 0-based log claims that each peer holds entry 0 | leader with an empty log and three peers, after one peer's empty heartbeat succeeds (matchIndex -1 for it): the candidate lies outside the log; leader with one entry of its term and two peers, one at -1 and one silent: entry 0 is committed although no peer holds it (MatchIndexZeroCommitsUnreplicated) | matchIndex -1, meaning nothing known to be replicated | high, not executed | CommitRules.MatchIndexZeroCommitsPastLog | CommitRules.MatchesInLogCandidateInRange |
| pkg/raft/replication.go:163-166 | a larger LeaderCommit sets commitIndex to min(LeaderCommit, last new index) even when that is below the current commitIndex | follower log of ten term-1 entries, commitIndex 5 and lastApplied 5; request in the same term with prevLogIndex 1, prevLogTerm 1, no entries, leaderCommit 7: commitIndex becomes 1 | the commit index never decreases, so nothing is applied beyond it | medium, not executed | RaftLog.StaleHeartbeatMovesCommitBack | RaftLog.FollowerCommit |
