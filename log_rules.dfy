/** Index arithmetic over a Raft log (pkg/raft/replication.go): the follower's
    consistency check and conflict hint, the leader's AppendEntries arguments and
    retry point, the follower's commit clamp and the entries handed to the state
    machine. The log is 0-based and index -1 means "before the first entry". */
module RaftLog {
  import opened RaftTypes

  function Min(a: int, b: int): int { if a <= b then a else b }

  function Max(a: int, b: int): int { if a >= b then a else b }

  /** The largest index holding an entry of term `t`, or -1 when there is none.
      (findLastIndexForTerm has no definition in the shown sources; this is the reading used.) */
  function FindLastIndexForTerm(log: seq<LogEntry>, t: int): (r: int)
    ensures -1 <= r < |log|
    ensures r >= 0 ==> log[r].term == t
    ensures forall k :: r < k < |log| ==> log[k].term != t
  {
    if log == [] then -1
    else if log[|log| - 1].term == t then |log| - 1
    else FindLastIndexForTerm(log[..|log| - 1], t)
  }

  /** The follower's consistency check: the entry before the new ones exists and has the leader's term. */
  predicate Consistent(log: seq<LogEntry>, prevLogIndex: int, prevLogTerm: int)
    ensures prevLogIndex >= -1 ==>
              (Consistent(log, prevLogIndex, prevLogTerm) <==>
                 prevLogIndex == -1 || (prevLogIndex < |log| && log[prevLogIndex].term == prevLogTerm))
    ensures prevLogIndex < -1 ==> Consistent(log, prevLogIndex, prevLogTerm)
  {
    !(prevLogIndex >= |log| || (prevLogIndex >= 0 && log[prevLogIndex].term != prevLogTerm))
  }

  /** The largest `j < i` whose entry has a term other than `t`, or -1. */
  function LastOtherTermBefore(log: seq<LogEntry>, i: int, t: int): (j: int)
    requires 0 <= i <= |log|
    ensures -1 <= j < i
    ensures j >= 0 ==> log[j].term != t
    ensures forall k :: j < k < i ==> log[k].term == t
    decreases i
  {
    if i == 0 then -1
    else if log[i - 1].term != t then i - 1
    else LastOtherTermBefore(log, i - 1, t)
  }

  /** Any `j` with the three properties of LastOtherTermBefore is its value. */
  lemma {:induction false} LastOtherTermBeforeUnique(log: seq<LogEntry>, i: int, t: int, j: int)
    requires 0 <= i <= |log|
    requires -1 <= j < i
    requires j >= 0 ==> log[j].term != t
    requires forall k :: j < k < i ==> log[k].term == t
    ensures LastOtherTermBefore(log, i, t) == j
    decreases i
  {
    if j < i - 1 {
      LastOtherTermBeforeUnique(log, i - 1, t, j);
    }
  }

  /** The ConflictIndex the follower returns when the entry at `prev` has the wrong term,
      as replication.go computes it: the start of the run of `log[prev].term` that ends at
      `prev`, except that a run reaching index 0 leaves the log length in place. */
  function ConflictIndexAsWritten(log: seq<LogEntry>, prev: int): (r: int)
    requires 0 <= prev < |log|
    ensures var t := log[prev].term;
            (r == |log| && forall k :: 0 <= k <= prev ==> log[k].term == t) ||
            (1 <= r <= prev && log[r - 1].term != t && forall k :: r <= k <= prev ==> log[k].term == t)
  {
    var j := LastOtherTermBefore(log, prev, log[prev].term);
    if j == -1 then |log| else j + 1
  }

  /** The corrected hint: the first index of the run of `log[prev].term` ending at `prev`
      (0 when the run starts the log). */
  function FirstIndexOfTermRun(log: seq<LogEntry>, prev: int): (r: int)
    requires 0 <= prev < |log|
    ensures 0 <= r <= prev
    ensures forall k :: r <= k <= prev ==> log[k].term == log[prev].term
    ensures r > 0 ==> log[r - 1].term != log[prev].term
  {
    LastOtherTermBefore(log, prev, log[prev].term) + 1
  }

  /** ConflictIndex and ConflictTerm of a rejection, as written:
      (log length, 0) when `prev` is past the end, else the as-written index and the term found at `prev`. */
  function ConflictHintAsWritten(log: seq<LogEntry>, prev: int): (hint: (int, int))
    requires prev >= |log| || 0 <= prev
    ensures prev >= |log| ==> hint == (|log|, 0)
    ensures prev < |log| ==> hint.1 == log[prev].term
    ensures prev < |log| && hint.0 == |log| ==> forall k :: 0 <= k <= prev ==> log[k].term == hint.1
    ensures prev < |log| && hint.0 != |log| ==>
              1 <= hint.0 <= prev && log[hint.0 - 1].term != hint.1 &&
              forall k :: hint.0 <= k <= prev ==> log[k].term == hint.1
  {
    if prev >= |log| then (|log|, 0)
    else (ConflictIndexAsWritten(log, prev), log[prev].term)
  }

  /** ConflictIndex and ConflictTerm of a rejection, with the corrected index: (log length, 0)
      when `prev` is past the end; otherwise the term at `prev` and the first index of the
      run of that term which ends at `prev`. */
  function ConflictHint(log: seq<LogEntry>, prev: int): (hint: (int, int))
    requires prev >= |log| || 0 <= prev
    ensures prev >= |log| ==> hint == (|log|, 0)
    ensures prev < |log| ==>
              hint.1 == log[prev].term && 0 <= hint.0 <= prev &&
              (forall k :: hint.0 <= k <= prev ==> log[k].term == hint.1) &&
              (hint.0 > 0 ==> log[hint.0 - 1].term != hint.1)
  {
    if prev >= |log| then (|log|, 0)
    else (FirstIndexOfTermRun(log, prev), log[prev].term)
  }

  /** The two hints differ only when the run of the conflicting term starts the log. */
  lemma ConflictHintsAgreeUnlessRunStartsLog(log: seq<LogEntry>, prev: int)
    requires prev >= |log| || 0 <= prev
    ensures ConflictHint(log, prev) != ConflictHintAsWritten(log, prev) <==>
              prev < |log| && forall k :: 0 <= k <= prev ==> log[k].term == log[prev].term
  {
  }

  /** The follower's log after an accepted AppendEntries, as written: everything after
      `prev` is replaced by the leader's entries, so any entry of the old log past the
      last new one is lost, whatever its term. */
  function AcceptedLog(log: seq<LogEntry>, prev: int, entries: seq<LogEntry>): (r: seq<LogEntry>)
    requires -1 <= prev < |log|
    ensures |r| == prev + 1 + |entries|
    ensures r[..prev + 1] == log[..prev + 1] && r[prev + 1..] == entries
    ensures |r| < |log| <==> prev + 1 + |entries| < |log|
  {
    log[..prev + 1] + entries
  }

  /** The follower's commit index as written, after an accepted AppendEntries whose last
      new entry has index `lastNew` (the log as written ends there): a larger leaderCommit
      is followed, but never past that entry, even when that is below the old commit index. */
  function FollowerCommitAsWritten(commitIndex: int, leaderCommit: int, lastNew: int): (r: int)
    ensures leaderCommit > commitIndex ==> r <= lastNew && r <= leaderCommit
    ensures leaderCommit > commitIndex ==> r == leaderCommit || r == lastNew
    ensures leaderCommit <= commitIndex ==> r == commitIndex
    ensures r < commitIndex <==> leaderCommit > commitIndex && lastNew < commitIndex
  {
    if leaderCommit > commitIndex then Min(leaderCommit, lastNew) else commitIndex
  }

  /** The corrected commit index: as above, except that it never moves back; a request
      whose last new entry lies below the commit index leaves it where it is. */
  function FollowerCommit(commitIndex: int, leaderCommit: int, lastNew: int): (r: int)
    ensures r >= commitIndex
    ensures r > commitIndex ==> r <= lastNew && r <= leaderCommit && (r == leaderCommit || r == lastNew)
    ensures leaderCommit > commitIndex && lastNew > commitIndex ==> r > commitIndex
  {
    if leaderCommit > commitIndex then Max(commitIndex, Min(leaderCommit, lastNew)) else commitIndex
  }

  /** The corrected commit index differs from the one as written exactly when the latter
      moves back. */
  lemma FollowerCommitAgreesUnlessMovingBack(commitIndex: int, leaderCommit: int, lastNew: int)
    ensures FollowerCommit(commitIndex, leaderCommit, lastNew) != FollowerCommitAsWritten(commitIndex, leaderCommit, lastNew)
            <==> FollowerCommitAsWritten(commitIndex, leaderCommit, lastNew) < commitIndex
  {
  }

  /** The corrected merge (Figure 2 of the Raft paper, receiver steps 3 and 4):
      an existing entry is dropped only when it conflicts (same index, other term)
      with one of the leader's entries; entries already present are kept. */
  function MergeEntries(log: seq<LogEntry>, prev: int, entries: seq<LogEntry>): (r: seq<LogEntry>)
    requires -1 <= prev < |log|
    ensures |r| >= prev + 1 + |entries|
    ensures r[..prev + 1] == log[..prev + 1]
    ensures forall k :: 0 <= k < |entries| ==> r[prev + 1 + k].term == entries[k].term
    ensures forall k :: prev < k < prev + 1 + |entries| ==>
              r[k] == entries[k - prev - 1] || (k < |log| && r[k] == log[k])
    ensures r == log || |r| == prev + 1 + |entries|
    decreases |entries|
  {
    if entries == [] then log
    else if prev + 1 < |log| && log[prev + 1].term == entries[0].term then
      var r := MergeEntries(log, prev + 1, entries[1..]);
      assert r[..prev + 1] == r[..prev + 2][..prev + 1];
      r
    else log[..prev + 1] + entries
  }

  /** When none of the leader's entries conflicts, the corrected merge removes nothing:
      the old log is a prefix of the new one. */
  lemma {:induction false} MergeWithoutConflictKeepsLog(log: seq<LogEntry>, prev: int, entries: seq<LogEntry>)
    requires -1 <= prev < |log|
    requires NoConflict(log, prev, entries)
    ensures var r := MergeEntries(log, prev, entries);
            |r| >= |log| && r[..|log|] == log
    decreases |entries|
  {
    if entries != [] && prev + 1 < |log| && log[prev + 1].term == entries[0].term {
      assert NoConflict(log, prev + 1, entries[1..]) by {
        forall k | 0 <= k < |entries[1..]| && 0 <= prev + 2 + k < |log|
          ensures log[prev + 2 + k].term == entries[1..][k].term
        {
          assert log[prev + 1 + (k + 1)].term == entries[k + 1].term;
        }
      }
      MergeWithoutConflictKeepsLog(log, prev + 1, entries[1..]);
    } else if entries != [] {
      assert log[..prev + 1] == log;
    }
  }

  /** When one of the leader's entries conflicts, the corrected merge does change the log,
      and the result ends with the last of the leader's entries: the old entries past it
      are dropped. */
  lemma MergeWithConflictEndsWithEntries(log: seq<LogEntry>, prev: int, entries: seq<LogEntry>)
    requires -1 <= prev < |log|
    requires !NoConflict(log, prev, entries)
    ensures var r := MergeEntries(log, prev, entries);
            r != log && |r| == prev + 1 + |entries|
  {
    var k :| 0 <= k < |entries| && 0 <= prev + 1 + k < |log| && log[prev + 1 + k].term != entries[k].term;
    var r := MergeEntries(log, prev, entries);
    assert r[prev + 1 + k].term == entries[k].term;
  }

  /** No entry of `log` after `prev` has a term other than the leader's entry at the same index. */
  predicate NoConflict(log: seq<LogEntry>, prev: int, entries: seq<LogEntry>) {
    forall k :: 0 <= k < |entries| && 0 <= prev + 1 + k < |log| ==> log[prev + 1 + k].term == entries[k].term
  }

  /** Finding: an AppendEntries that arrives late (or twice) and carries entries the
      follower already holds cuts the log back to its own end, dropping the committed
      entries after it; the commit index then points past the end of the log.
      The corrected merge leaves the log as it was. */
  lemma StaleAppendTruncatesCommitted()
    ensures var log := [LogEntry(1, []), LogEntry(1, []), LogEntry(1, [])];
            var commitIndex := 2;
            var args := AppendEntriesArgs(1, 0, 0, 1, [LogEntry(1, [])], 1);
            var accepted := AcceptedLog(log, args.prevLogIndex, args.entries);
            Consistent(log, args.prevLogIndex, args.prevLogTerm) &&
            |accepted| == 2 &&
            FollowerCommitAsWritten(commitIndex, args.leaderCommit, args.prevLogIndex + |args.entries|) > |accepted| - 1 &&
            MergeEntries(log, args.prevLogIndex, args.entries) == log
  {
    var log := [LogEntry(1, []), LogEntry(1, []), LogEntry(1, [])];
    assert MergeEntries(log, 1, []) == log;
  }

  /** Finding: a late heartbeat whose prevLogIndex lies below the follower's commit index,
      with a larger leaderCommit, moves the commit index back to that prevLogIndex, below
      entries the follower has already applied. The corrected commit index stays put, and
      the corrected merge keeps the log whole. */
  lemma StaleHeartbeatMovesCommitBack()
    ensures var log := seq(10, k => LogEntry(1, []));
            var commitIndex := 5;
            var lastApplied := 5;
            var args := AppendEntriesArgs(1, 0, 1, 1, [], 7);
            var lastNew := args.prevLogIndex + |args.entries|;
            Consistent(log, args.prevLogIndex, args.prevLogTerm) &&
            |AcceptedLog(log, args.prevLogIndex, args.entries)| == 2 &&
            FollowerCommitAsWritten(commitIndex, args.leaderCommit, lastNew) == 1 < lastApplied &&
            FollowerCommit(commitIndex, args.leaderCommit, lastNew) == commitIndex &&
            MergeEntries(log, args.prevLogIndex, args.entries) == log
  {
    var log := seq(10, k => LogEntry(1, []));
    assert MergeEntries(log, 1, []) == log;
  }

  /** The corrected merge never shortens a log whose entries agree with the leader's,
      so a commit index inside the old log stays inside the new one. */
  lemma MergeKeepsCommitted(log: seq<LogEntry>, prev: int, entries: seq<LogEntry>, commitIndex: int)
    requires -1 <= prev < |log|
    requires NoConflict(log, prev, entries)
    requires commitIndex < |log|
    ensures commitIndex < |MergeEntries(log, prev, entries)|
    ensures forall k :: 0 <= k <= commitIndex ==> MergeEntries(log, prev, entries)[k] == log[k]
  {
    var r := MergeEntries(log, prev, entries);
    MergeWithoutConflictKeepsLog(log, prev, entries);
    forall k | 0 <= k <= commitIndex
      ensures r[k] == log[k]
    {
      assert r[..|log|][k] == log[k];
    }
  }

  /** The AppendEntries arguments a leader builds for a peer whose nextIndex is `next`. */
  function AppendArgs(log: seq<LogEntry>, term: int, leaderId: int, commitIndex: int, next: int): (args: AppendEntriesArgs)
    requires 0 <= next <= |log|
    ensures args.term == term && args.leaderId == leaderId && args.leaderCommit == commitIndex
    ensures args.prevLogIndex + 1 == next
    ensures args.prevLogTerm == if next == 0 then 0 else log[next - 1].term
    ensures log[..next] + args.entries == log
  {
    var prev := next - 1;
    AppendEntriesArgs(term, leaderId, prev,
                      if prev >= 0 then log[prev].term else 0,
                      if next <= |log| - 1 then log[next..] else [],
                      commitIndex)
  }

  /** A follower whose log agrees with the leader's on every index below `next` accepts
      the leader's arguments, and its log then equals the leader's, whose last index is
      the matchIndex the leader records on success. */
  lemma FollowerCatchesUp(leaderLog: seq<LogEntry>, followerLog: seq<LogEntry>, term: int, leaderId: int,
                          commitIndex: int, next: int)
    requires 0 <= next <= |leaderLog|
    requires next <= |followerLog|
    requires followerLog[..next] == leaderLog[..next]
    ensures var args := AppendArgs(leaderLog, term, leaderId, commitIndex, next);
            Consistent(followerLog, args.prevLogIndex, args.prevLogTerm) &&
            AcceptedLog(followerLog, args.prevLogIndex, args.entries) == leaderLog &&
            args.prevLogIndex + 1 + |args.entries| == |leaderLog|
  {
    var args := AppendArgs(leaderLog, term, leaderId, commitIndex, next);
    if next > 0 {
      assert followerLog[next - 1] == followerLog[..next][next - 1];
    }
    assert args.entries == leaderLog[next..];
    assert leaderLog == leaderLog[..next] + leaderLog[next..];
  }

  /** The leader's new nextIndex after a rejection carrying (conflictIndex, conflictTerm). */
  function NextIndexAfterReject(log: seq<LogEntry>, conflictIndex: int, conflictTerm: int): (r: int)
    ensures conflictTerm != 0 && FindLastIndexForTerm(log, conflictTerm) != -1 ==>
              0 < r <= |log| && log[r - 1].term == conflictTerm &&
              forall k :: r <= k < |log| ==> log[k].term != conflictTerm
    ensures (conflictTerm == 0 || forall k :: 0 <= k < |log| ==> log[k].term != conflictTerm) ==>
              r == conflictIndex
  {
    if conflictTerm != 0 then
      var lastIndex := FindLastIndexForTerm(log, conflictTerm);
      if lastIndex != -1 then lastIndex + 1 else conflictIndex
    else conflictIndex
  }

  /** Finding: when the follower's conflicting run of terms starts its log and the leader
      holds no entry of that term, the as-written hint sends the leader back to the very
      nextIndex it used, so it re-sends the same request for ever; and when the follower's
      log is longer than the leader's, it sends nextIndex past the end of the leader's log,
      where building the next request reads an entry that does not exist. */
  lemma ConflictIndexStallsAtLogStart()
    ensures var leaderLog := [LogEntry(1, []), LogEntry(3, [])];
            var followerLog := [LogEntry(2, [])];
            var next := 1;
            var args := AppendArgs(leaderLog, 3, 0, -1, next);
            var hint := ConflictHintAsWritten(followerLog, args.prevLogIndex);
            !Consistent(followerLog, args.prevLogIndex, args.prevLogTerm) &&
            NextIndexAfterReject(leaderLog, hint.0, hint.1) == next
    ensures var leaderLog := [LogEntry(1, []), LogEntry(3, [])];
            var followerLog := [LogEntry(2, []), LogEntry(2, []), LogEntry(2, []), LogEntry(2, []), LogEntry(2, [])];
            var args := AppendArgs(leaderLog, 3, 0, -1, 1);
            var hint := ConflictHintAsWritten(followerLog, args.prevLogIndex);
            !Consistent(followerLog, args.prevLogIndex, args.prevLogTerm) &&
            NextIndexAfterReject(leaderLog, hint.0, hint.1) == |followerLog| > |leaderLog|
  {
    assert LastOtherTermBefore([LogEntry(2, [])], 0, 2) == -1;
    var longer := [LogEntry(2, []), LogEntry(2, []), LogEntry(2, []), LogEntry(2, []), LogEntry(2, [])];
    assert LastOtherTermBefore(longer, 0, 2) == -1;
  }

  /** With the corrected hint, a rejection for a term the leader does not hold always
      moves the leader's nextIndex strictly back. */
  lemma FirstIndexOfTermRunBacktracks(leaderLog: seq<LogEntry>, followerLog: seq<LogEntry>, next: int)
    requires 0 < next <= |leaderLog|
    requires next - 1 < |followerLog|
    requires followerLog[next - 1].term != leaderLog[next - 1].term
    requires forall k :: 0 <= k < |leaderLog| ==> leaderLog[k].term != followerLog[next - 1].term
    ensures var args := AppendArgs(leaderLog, 0, 0, -1, next);
            !Consistent(followerLog, args.prevLogIndex, args.prevLogTerm) &&
            0 <= NextIndexAfterReject(leaderLog, FirstIndexOfTermRun(followerLog, next - 1),
                                      followerLog[next - 1].term) < next
  {
  }

  /** The messages applying the entries with indices in (after, upTo], in increasing order. */
  function ApplyRange(log: seq<LogEntry>, after: int, upTo: int): (msgs: seq<ApplyMsg>)
    requires -1 <= after
    requires upTo <= after || upTo < |log|
    ensures |msgs| == (if upTo <= after then 0 else upTo - after)
    ensures forall k | 0 <= k < |msgs| :: msgs[k] == ApplyMsg(true, log[after + 1 + k].command, after + 1 + k)
    decreases upTo - after
  {
    if upTo <= after then []
    else
      var front := ApplyRange(log, after, upTo - 1);
      var msgs := front + [ApplyMsg(true, log[upTo].command, upTo)];
      assert forall k :: 0 <= k < |front| ==> msgs[k] == front[k];
      msgs
  }

  /** Applying up to `mid` and then up to `upTo` delivers each index once, as one apply up to `upTo` would. */
  lemma ApplyRangeSplit(log: seq<LogEntry>, after: int, mid: int, upTo: int)
    requires -1 <= after <= mid <= upTo < |log|
    ensures ApplyRange(log, after, mid) + ApplyRange(log, mid, upTo) == ApplyRange(log, after, upTo)
  {
    var a, b, c := ApplyRange(log, after, mid), ApplyRange(log, mid, upTo), ApplyRange(log, after, upTo);
    assert |a + b| == |c|;
    forall k | 0 <= k < |c|
      ensures (a + b)[k] == c[k]
    {
      if k < |a| {
        assert (a + b)[k] == a[k];
      } else {
        assert (a + b)[k] == b[k - |a|];
      }
    }
  }
}
