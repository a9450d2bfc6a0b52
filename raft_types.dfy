/** The records exchanged by a Raft node: its role, its log entries and the
    AppendEntries / RequestVote messages, as declared in pkg/raft. */
module RaftTypes {

  /** The role a node plays in its current term. */
  datatype Role = Follower | Candidate | Leader

  /** The command carried by a log entry. The consensus layer never looks inside it. */
  type Payload = seq<bv8>

  datatype LogEntry = LogEntry(term: int, command: Payload)

  datatype AppendEntriesArgs = AppendEntriesArgs(
    term: int,
    leaderId: int,
    prevLogIndex: int,
    prevLogTerm: int,
    entries: seq<LogEntry>,
    leaderCommit: int)

  datatype AppendEntriesReply = AppendEntriesReply(
    term: int,
    success: bool,
    conflictIndex: int,
    conflictTerm: int)

  datatype RequestVoteArgs = RequestVoteArgs(
    term: int,
    candidateId: int,
    lastLogIndex: int,
    lastLogTerm: int)

  datatype RequestVoteReply = RequestVoteReply(term: int, voteGranted: bool)

  /** What the node pushes to the state machine for each applied entry. */
  datatype ApplyMsg = ApplyMsg(commandValid: bool, command: Payload, commandIndex: int)
}
