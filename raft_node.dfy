/** One Raft server (pkg/raft/raft.go, election.go, replication.go). Every handler of the
    source runs under the node's mutex, so each is one atomic method here. */
module Raft {
  import opened Wrappers
  import opened RaftTypes
  import opened RaftLog
  import opened CommitRules
  import opened ElectionRules

  class RaftNode {
    const id: int
    /** The ids of the other servers of the cluster. */
    const peers: set<int>

    var state: Role
    var currentTerm: int
    var votedFor: int
    var votesReceived: int
    /** Entry i of the log has index i; index -1 stands for "before the first entry". */
    var log: seq<LogEntry>
    var commitIndex: int
    var lastApplied: int
    var nextIndex: map<int, int>
    var matchIndex: map<int, int>

    /** What every handler keeps. Nothing is applied beyond the commit index, because
        neither the follower's commit clamp (corrected, see FollowerCommitAsWritten) nor the
        leader's commit rule moves the commit index back. It cannot say commitIndex < |log|:
        an accepted AppendEntries whose entries conflict may shorten the log under it
        (see MergeWithConflictEndsWithEntries). */
    predicate Valid()
      reads this
    {
      id !in peers &&
      commitIndex >= -1 && lastApplied >= -1 && lastApplied <= commitIndex &&
      nextIndex.Keys <= peers && matchIndex.Keys <= peers &&
      (state == Leader ==> nextIndex.Keys == peers && matchIndex.Keys == peers)
    }

    /** A fresh node: a follower in term 0 with an empty log that has voted for nobody. */
    constructor (id: int, peers: set<int>)
      requires id !in peers
      ensures Valid()
      ensures this.id == id && this.peers == peers
      ensures state == Follower && currentTerm == 0 && votedFor == -1 && votesReceived == 0
      ensures log == [] && commitIndex == -1 && lastApplied == -1
      ensures nextIndex == map[] && matchIndex == map[]
    {
      this.id := id;
      this.peers := peers;
      state := Follower;
      currentTerm := 0;
      votedFor := -1;
      votesReceived := 0;
      log := [];
      commitIndex := -1;
      lastApplied := -1;
      nextIndex := map[];
      matchIndex := map[];
    }

    /** The leader's view of its peers right after an election: each peer's next index is
        one past the last log index and none is known to hold any entry. */
    predicate LeaderMapsReset()
      reads this
    {
      nextIndex.Keys == peers && (forall p :: p in nextIndex ==> nextIndex[p] == |log|) &&
      matchIndex.Keys == peers && forall p :: p in matchIndex ==> matchIndex[p] == -1
    }

    /** A Go map read: a peer without an entry has nextIndex 0. */
    function NextIndexOf(peer: int): int
      reads this
    {
      if peer in nextIndex then nextIndex[peer] else 0
    }

    /** stepDown: back to follower in `term`, with no vote cast. Its callers only pass a
        term above the current one. */
    method StepDown(term: int)
      requires Valid()
      modifies this
      ensures Valid()
      ensures state == Follower && currentTerm == term && votedFor == -1
      ensures votesReceived == old(votesReceived) && log == old(log)
      ensures commitIndex == old(commitIndex) && lastApplied == old(lastApplied)
      ensures nextIndex == old(nextIndex) && matchIndex == old(matchIndex)
    {
      state := Follower;
      currentTerm := term;
      votedFor := -1;
    }

    /** The state part of startNewElection: a new term, a vote for itself, and the vote
        request that carries the node's last log index and term (getLastLogInfo is not part
        of this model; it is read as the last index, -1 for an empty log, and the last
        entry's term, 0 for an empty log). */
    method StartNewElection() returns (args: RequestVoteArgs)
      requires Valid()
      modifies this
      ensures Valid()
      ensures currentTerm == old(currentTerm) + 1
      ensures state == Candidate && votedFor == id && votesReceived == 1
      ensures args.term == currentTerm && args.candidateId == id
      ensures args.lastLogIndex == |log| - 1
      ensures args.lastLogTerm == if log == [] then 0 else log[|log| - 1].term
      ensures log == old(log) && commitIndex == old(commitIndex) && lastApplied == old(lastApplied)
      ensures nextIndex == old(nextIndex) && matchIndex == old(matchIndex)
    {
      currentTerm := currentTerm + 1;
      state := Candidate;
      votedFor := id;
      votesReceived := 1;
      var lastLogTerm := if log == [] then 0 else log[|log| - 1].term;
      args := RequestVoteArgs(currentTerm, id, |log| - 1, lastLogTerm);
    }

    /** runElectionTimer when the timeout expires: a leader starts no election; any other
        node starts one and sends its vote request. */
    method ElectionTimerFired() returns (request: Option<RequestVoteArgs>)
      requires Valid()
      modifies this
      ensures Valid()
      ensures old(state) == Leader <==> request.None?
      ensures old(state) == Leader ==>
                state == Leader && currentTerm == old(currentTerm) && votedFor == old(votedFor) &&
                votesReceived == old(votesReceived)
      ensures old(state) != Leader ==>
                state == Candidate && currentTerm == old(currentTerm) + 1 && votedFor == id &&
                votesReceived == 1 &&
                request == Some(RequestVoteArgs(currentTerm, id, |log| - 1,
                                                if log == [] then 0 else log[|log| - 1].term))
      ensures log == old(log) && commitIndex == old(commitIndex) && lastApplied == old(lastApplied)
      ensures nextIndex == old(nextIndex) && matchIndex == old(matchIndex)
    {
      if state == Leader {
        return None;
      }
      var args := StartNewElection();
      request := Some(args);
    }

    /** The goroutine that turns one vote reply into a vote on the channel: an RPC error
        (None) or a refusal is a `false`, a reply from a later term steps the node down and
        is a `false`, a grant is a `true`. */
    method HandleVoteReply(reply: Option<RequestVoteReply>) returns (vote: bool)
      requires Valid()
      modifies this
      ensures Valid()
      ensures vote <==> reply.Some? && reply.value.term <= old(currentTerm) && reply.value.voteGranted
      ensures reply.Some? && reply.value.term > old(currentTerm) ==>
                state == Follower && currentTerm == reply.value.term && votedFor == -1
      ensures !(reply.Some? && reply.value.term > old(currentTerm)) ==>
                state == old(state) && currentTerm == old(currentTerm) && votedFor == old(votedFor)
      ensures currentTerm >= old(currentTerm)
      ensures votesReceived == old(votesReceived) && log == old(log)
      ensures commitIndex == old(commitIndex) && lastApplied == old(lastApplied)
      ensures nextIndex == old(nextIndex) && matchIndex == old(matchIndex)
    {
      if reply.None? {
        return false;
      }
      if reply.value.term > currentTerm {
        StepDown(reply.value.term);
        return false;
      }
      vote := reply.value.voteGranted;
    }

    /** becomeLeader: every peer gets nextIndex one past the last log index, and matchIndex
        -1, "nothing known to be replicated" (corrected: the source writes 0; see
        CommitRules.MatchIndexAtElectionAsWritten). */
    method BecomeLeader()
      requires Valid()
      modifies this
      ensures Valid()
      ensures state == Leader && LeaderMapsReset()
      ensures MatchesInLog(matchIndex, log)
      ensures currentTerm == old(currentTerm) && votedFor == old(votedFor)
      ensures votesReceived == old(votesReceived) && log == old(log)
      ensures commitIndex == old(commitIndex) && lastApplied == old(lastApplied)
    {
      state := Leader;
      nextIndex := map[];
      matchIndex := map[];
      var rest := peers;
      while rest != {}
        invariant rest <= peers
        invariant nextIndex.Keys == peers - rest && forall p :: p in nextIndex ==> nextIndex[p] == |log|
        invariant matchIndex.Keys == peers - rest && forall p :: p in matchIndex ==> matchIndex[p] == -1
        invariant state == Leader && log == old(log)
        invariant currentTerm == old(currentTerm) && votedFor == old(votedFor)
        invariant votesReceived == old(votesReceived)
        invariant commitIndex == old(commitIndex) && lastApplied == old(lastApplied)
        decreases |rest|
      {
        NonEmptySetHasMember(rest);
        var p :| p in rest;
        nextIndex := nextIndex[p := |log|];
        matchIndex := matchIndex[p := -1];
        rest := rest - {p};
      }
    }

    /** countVotes over the votes as they arrive on the channel (one per peer): the tally
        starts at 1 for the node's own vote, and as soon as it reaches the quorum the node
        becomes leader, provided it is still a candidate. The tally is compared with the
        quorum before any vote arrives too (corrected: the source compares only after a
        granted vote, see TallyElects). */
    method CountVotes(votes: seq<bool>)
      requires Valid()
      requires |votes| == |peers|
      modifies this
      ensures Valid()
      ensures old(state) == Candidate && IntendedTallyElects(votes) ==>
                state == Leader && LeaderMapsReset()
      ensures !(old(state) == Candidate && IntendedTallyElects(votes)) ==>
                state == old(state) && nextIndex == old(nextIndex) && matchIndex == old(matchIndex)
      ensures currentTerm == old(currentTerm) && votedFor == old(votedFor)
      ensures votesReceived == old(votesReceived) && log == old(log)
      ensures commitIndex == old(commitIndex) && lastApplied == old(lastApplied)
    {
      var quorum := Quorum(|votes|);
      var tally := 1;
      if tally >= quorum && state == Candidate {
        BecomeLeader();
        return;
      }
      var i := 0;
      while i < |votes|
        invariant 0 <= i <= |votes|
        invariant tally == 1 + CountTrue(votes[..i])
        invariant old(state) == Candidate ==>
                    forall k :: 0 <= k < i && votes[k] ==> 1 + CountTrue(votes[..k + 1]) < quorum
        invariant state == old(state) && nextIndex == old(nextIndex) && matchIndex == old(matchIndex)
        invariant currentTerm == old(currentTerm) && votedFor == old(votedFor)
        invariant votesReceived == old(votesReceived) && log == old(log)
        invariant commitIndex == old(commitIndex) && lastApplied == old(lastApplied)
      {
        assert votes[..i + 1][..i] == votes[..i];
        if votes[i] {
          tally := tally + 1;
          if tally >= quorum && state == Candidate {
            IntendedTallyAgrees(votes);
            BecomeLeader();
            return;
          }
        }
        i := i + 1;
      }
      IntendedTallyAgrees(votes);
    }

    /** HandleAppendEntries, the follower side of replication. The reply carries the term
        the node had on arrival. Two steps are corrected: the conflict index is the first
        index of the conflicting term's run even when that run starts the log (see
        ConflictHintAsWritten), accepted entries are merged rather than cutting the
        log after them (see AcceptedLog), and the commit index never moves back (see
        FollowerCommitAsWritten). */
    method HandleAppendEntries(args: AppendEntriesArgs) returns (reply: AppendEntriesReply)
      requires Valid()
      requires args.term < currentTerm || args.prevLogIndex >= -1
      modifies this
      ensures Valid()
      ensures reply.term == old(currentTerm)
      // a request from an earlier term is refused and changes nothing
      ensures args.term < old(currentTerm) ==>
                reply == AppendEntriesReply(old(currentTerm), false, 0, 0) &&
                state == old(state) && currentTerm == old(currentTerm) && votedFor == old(votedFor) &&
                log == old(log) && commitIndex == old(commitIndex)
      // a later term is adopted before the consistency check
      ensures args.term > old(currentTerm) ==>
                state == Follower && currentTerm == args.term && votedFor == -1
      ensures args.term == old(currentTerm) ==>
                state == old(state) && currentTerm == old(currentTerm) && votedFor == old(votedFor)
      // a failed consistency check is refused with the conflict hint
      ensures args.term >= old(currentTerm) && !Consistent(old(log), args.prevLogIndex, args.prevLogTerm) ==>
                var hint := ConflictHint(old(log), args.prevLogIndex);
                reply == AppendEntriesReply(old(currentTerm), false, hint.0, hint.1) &&
                log == old(log) && commitIndex == old(commitIndex)
      // otherwise the entries are merged into the log after prevLogIndex
      ensures args.term >= old(currentTerm) && Consistent(old(log), args.prevLogIndex, args.prevLogTerm) ==>
                reply == AppendEntriesReply(old(currentTerm), true, 0, 0) &&
                log == MergeEntries(old(log), args.prevLogIndex, args.entries) &&
                commitIndex == FollowerCommit(old(commitIndex), args.leaderCommit, args.prevLogIndex + |args.entries|) &&
                (commitIndex != old(commitIndex) ==> commitIndex < |log|)
      ensures votesReceived == old(votesReceived) && lastApplied == old(lastApplied)
      ensures nextIndex == old(nextIndex) && matchIndex == old(matchIndex)
    {
      reply := AppendEntriesReply(currentTerm, false, 0, 0);
      if args.term < currentTerm {
        return;
      }
      if args.term > currentTerm {
        StepDown(args.term);
      }
      var prev := args.prevLogIndex;
      if prev >= |log| || (prev >= 0 && log[prev].term != args.prevLogTerm) {
        var conflictIndex := |log|;
        var conflictTerm := 0;
        if prev < |log| {
          conflictTerm := log[prev].term;
          var i := prev - 1;
          while i >= 0 && log[i].term == conflictTerm
            invariant -1 <= i < prev
            invariant forall k :: i < k < prev ==> log[k].term == conflictTerm
            decreases i
          {
            i := i - 1;
          }
          conflictIndex := i + 1;
          LastOtherTermBeforeUnique(log, prev, conflictTerm, i);
        }
        reply := reply.(conflictIndex := conflictIndex, conflictTerm := conflictTerm);
        return;
      }
      log := MergeEntries(log, prev, args.entries);
      if args.leaderCommit > commitIndex {
        commitIndex := Max(commitIndex, Min(args.leaderCommit, prev + |args.entries|));
      }
      reply := reply.(success := true);
    }

    /** The arguments replicateToPeer builds for `peer` from its nextIndex: the entry before
        nextIndex as the consistency point and every entry from nextIndex on. */
    method ReplicationArgs(peer: int) returns (args: AppendEntriesArgs)
      requires 0 <= NextIndexOf(peer) <= |log|
      ensures args == AppendArgs(log, currentTerm, id, commitIndex, NextIndexOf(peer))
      ensures args.prevLogIndex + 1 == NextIndexOf(peer)
      ensures log[..NextIndexOf(peer)] + args.entries == log
    {
      var next := NextIndexOf(peer);
      var prevLogIndex := next - 1;
      var prevLogTerm := 0;
      if prevLogIndex >= 0 {
        prevLogTerm := log[prevLogIndex].term;
      }
      var entries := [];
      if next <= |log| - 1 {
        entries := log[next..];
      }
      args := AppendEntriesArgs(currentTerm, id, prevLogIndex, prevLogTerm, entries, commitIndex);
    }

    /** replicateToPeer after the call returns: `args` is what was sent, None an RPC error.
        A later term steps the node down; a refusal moves nextIndex by the conflict hint; a
        success records how far the peer matches and re-runs the commit rule. */
    method HandleAppendReply(peer: int, args: AppendEntriesArgs, reply: Option<AppendEntriesReply>)
      requires Valid() && peer in peers
      requires MatchesInLog(matchIndex, log)
      requires reply.Some? && reply.value.term <= currentTerm && reply.value.success ==>
                 args.prevLogIndex + |args.entries| < |log|
      modifies this
      ensures Valid()
      ensures log == old(log) && lastApplied == old(lastApplied) && votesReceived == old(votesReceived)
      ensures reply.None? ==>
                state == old(state) && currentTerm == old(currentTerm) && votedFor == old(votedFor) &&
                commitIndex == old(commitIndex) && nextIndex == old(nextIndex) && matchIndex == old(matchIndex)
      ensures reply.Some? && reply.value.term > old(currentTerm) ==>
                state == Follower && currentTerm == reply.value.term && votedFor == -1 &&
                commitIndex == old(commitIndex) && nextIndex == old(nextIndex) && matchIndex == old(matchIndex)
      ensures reply.Some? && reply.value.term <= old(currentTerm) ==>
                state == old(state) && currentTerm == old(currentTerm) && votedFor == old(votedFor)
      ensures reply.Some? && reply.value.term <= old(currentTerm) && !reply.value.success ==>
                nextIndex == old(nextIndex)[peer := NextIndexAfterReject(log, reply.value.conflictIndex,
                                                                          reply.value.conflictTerm)] &&
                matchIndex == old(matchIndex) && commitIndex == old(commitIndex)
      ensures reply.Some? && reply.value.term <= old(currentTerm) && reply.value.success ==>
                nextIndex == old(nextIndex)[peer := args.prevLogIndex + 1 + |args.entries|] &&
                matchIndex == old(matchIndex)[peer := args.prevLogIndex + |args.entries|] &&
                commitIndex == LeaderCommit(matchIndex, log, currentTerm, old(commitIndex))
    {
      if reply.None? {
        return;
      }
      var r := reply.value;
      if r.term > currentTerm {
        StepDown(r.term);
        return;
      }
      if !r.success {
        if r.conflictTerm != 0 {
          var lastIndex := FindLastIndexForTerm(log, r.conflictTerm);
          if lastIndex != -1 {
            nextIndex := nextIndex[peer := lastIndex + 1];
          } else {
            nextIndex := nextIndex[peer := r.conflictIndex];
          }
        } else {
          nextIndex := nextIndex[peer := r.conflictIndex];
        }
        return;
      }
      var next := args.prevLogIndex + 1;
      var newNext := next + |args.entries|;
      assert newNext - 1 == args.prevLogIndex + |args.entries|;
      nextIndex := nextIndex[peer := newNext];
      matchIndex := matchIndex[peer := newNext - 1];
      assert nextIndex.Keys <= peers && matchIndex.Keys <= peers;
      assert state == Leader ==> nextIndex.Keys == peers && matchIndex.Keys == peers;
      assert MatchesInLog(matchIndex, log);
      assert nextIndex == old(nextIndex)[peer := args.prevLogIndex + 1 + |args.entries|];
      assert matchIndex == old(matchIndex)[peer := args.prevLogIndex + |args.entries|];
      UpdateCommitIndex();
    }

    /** The match indices in the order a range over the map visits them. */
    method CollectMatchIndices() returns (values: seq<int>)
      ensures multiset(values) == multiset(MapValues(matchIndex))
    {
      values := [];
      var rest := matchIndex;
      while rest != map[]
        invariant multiset(values) + multiset(MapValues(rest)) == multiset(MapValues(matchIndex))
        decreases |rest|
      {
        NonEmptyMapHasKey(rest);
        var p :| p in rest;
        MapValuesRemove(rest, p);
        values := values + [rest[p]];
        rest := rest - {p};
      }
    }

    /** updateCommitIndex: sort the match indices together with the leader's last index,
        take the element at position n/2, and commit it if it is new and from this term. */
    method UpdateCommitIndex()
      requires Valid()
      requires MatchesInLog(matchIndex, log)
      modifies this
      ensures Valid()
      ensures state == old(state) && currentTerm == old(currentTerm) && votedFor == old(votedFor)
      ensures votesReceived == old(votesReceived) && log == old(log) && lastApplied == old(lastApplied)
      ensures nextIndex == old(nextIndex) && matchIndex == old(matchIndex)
      ensures commitIndex == LeaderCommit(matchIndex, log, currentTerm, old(commitIndex))
    {
      var values := CollectMatchIndices();
      values := values + [|log| - 1];
      assert multiset(values) == multiset(CommitValues(matchIndex, log));
      var sorted := SortInts(values);
      var candidate := sorted[|sorted| / 2];
      MedianOrderIndependent(values, CommitValues(matchIndex, log));
      assert candidate == CommitCandidate(matchIndex, log);
      MatchesInLogCandidateInRange(matchIndex, log, commitIndex);
      if candidate > commitIndex && log[candidate].term == currentTerm {
        commitIndex := candidate;
      }
    }

    /** applyLogs: hands every committed entry not yet applied to the state machine, in
        index order, and moves lastApplied up to commitIndex. */
    method ApplyLogs() returns (msgs: seq<ApplyMsg>)
      requires Valid()
      requires lastApplied >= commitIndex || commitIndex < |log|
      modifies this
      ensures Valid()
      ensures state == old(state) && currentTerm == old(currentTerm) && votedFor == old(votedFor)
      ensures votesReceived == old(votesReceived) && log == old(log) && commitIndex == old(commitIndex)
      ensures nextIndex == old(nextIndex) && matchIndex == old(matchIndex)
      ensures msgs == ApplyRange(log, old(lastApplied), commitIndex)
      ensures lastApplied == commitIndex
    {
      msgs := [];
      while lastApplied < commitIndex
        invariant -1 <= old(lastApplied) <= lastApplied
        invariant lastApplied == old(lastApplied) || lastApplied <= commitIndex < |log|
        invariant msgs == ApplyRange(log, old(lastApplied), lastApplied)
        invariant state == old(state) && currentTerm == old(currentTerm) && votedFor == old(votedFor)
        invariant votesReceived == old(votesReceived) && log == old(log) && commitIndex == old(commitIndex)
        invariant nextIndex == old(nextIndex) && matchIndex == old(matchIndex)
        decreases commitIndex - lastApplied
      {
        lastApplied := lastApplied + 1;
        msgs := msgs + [ApplyMsg(true, log[lastApplied].command, lastApplied)];
      }
    }

    /** broadcastAppendEntries: the peers a replication round goes to. A node that is not
        leader sends nothing; a leader sends to each peer once and never to itself. */
    method BroadcastAppendEntries() returns (targets: seq<int>)
      requires Valid()
      ensures state != Leader ==> targets == []
      ensures state == Leader ==> forall p :: p in targets <==> p in peers && p != id
      ensures forall i, j :: 0 <= i < j < |targets| ==> targets[i] != targets[j]
    {
      targets := [];
      if state != Leader {
        return;
      }
      var rest := peers;
      while rest != {}
        invariant rest <= peers
        invariant forall p :: p in targets <==> p in peers - rest && p != id
        invariant forall i, j :: 0 <= i < j < |targets| ==> targets[i] != targets[j]
        decreases |rest|
      {
        NonEmptySetHasMember(rest);
        var p :| p in rest;
        rest := rest - {p};
        if p == id {
          continue;
        }
        targets := targets + [p];
      }
    }
  }

  lemma NonEmptySetHasMember(s: set<int>)
    requires s != {}
    ensures exists p :: p in s
  {
    if forall p :: p !in s {
      assert false;
    }
  }
}
