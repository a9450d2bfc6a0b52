/** The arithmetic of an election (pkg/raft/election.go): the randomized timeout,
    the quorum and the vote tally of countVotes. */
module ElectionRules {

  /** Durations are in nanoseconds, as Go's time.Duration counts them. */
  const MILLISECOND: int := 1_000_000
  const MIN_ELECTION_TIMEOUT: int := 1500 * MILLISECOND
  const MAX_ELECTION_TIMEOUT: int := 3000 * MILLISECOND

  /** randomTimeout, with the value rand.Int63n drew passed in as `draw`. */
  function RandomTimeout(draw: int): (timeout: int)
    requires 0 <= draw < MAX_ELECTION_TIMEOUT - MIN_ELECTION_TIMEOUT
    ensures MIN_ELECTION_TIMEOUT <= timeout < MAX_ELECTION_TIMEOUT
    ensures timeout - MIN_ELECTION_TIMEOUT == draw
  {
    MIN_ELECTION_TIMEOUT + draw
  }

  /** The votes needed out of `peersCount` peers plus the candidate itself: a strict
      majority of the peersCount + 1 nodes, the smallest one, and one that all nodes
      together can reach. */
  function Quorum(peersCount: nat): (q: nat)
    ensures 2 * q > peersCount + 1
    ensures 2 * (q - 1) <= peersCount + 1
    ensures q <= peersCount + 1
  {
    (peersCount + 1) / 2 + 1
  }

  /** Two quorums of the same cluster share a node, and so does a quorum with the
      ceil(n/2) nodes that the leader's median commit rule relies on. */
  lemma QuorumsIntersect(peersCount: nat)
    ensures Quorum(peersCount) + Quorum(peersCount) > peersCount + 1
    ensures Quorum(peersCount) + ((peersCount + 1) - (peersCount + 1) / 2) > peersCount + 1
  {
  }

  /** Number of granted votes in `votes`. */
  function CountTrue(votes: seq<bool>): (n: nat)
    ensures n <= |votes|
  {
    if votes == [] then 0
    else CountTrue(votes[..|votes| - 1]) + (if votes[|votes| - 1] then 1 else 0)
  }

  /** Every prefix holds no more granted votes than the whole. */
  lemma CountTruePrefixes(votes: seq<bool>)
    ensures forall j :: 0 <= j <= |votes| ==> CountTrue(votes[..j]) <= CountTrue(votes)
  {
    forall j | 0 <= j <= |votes|
      ensures CountTrue(votes[..j]) <= CountTrue(votes)
    {
      CountTruePrefix(votes, j);
    }
  }

  /** A prefix holds no more granted votes than the whole. */
  lemma {:induction false} CountTruePrefix(votes: seq<bool>, j: nat)
    requires j <= |votes|
    ensures CountTrue(votes[..j]) <= CountTrue(votes)
    decreases |votes|
  {
    if j < |votes| {
      var front := votes[..|votes| - 1];
      assert front[..j] == votes[..j];
      CountTruePrefix(front, j);
    } else {
      assert votes[..j] == votes;
    }
  }

  /** countVotes as written: the tally starts at 1 for the candidate's own vote and is
      compared with the quorum only right after a granted vote arrives; the candidate
      wins when some granted vote brings the tally to the quorum. */
  ghost predicate TallyElects(votes: seq<bool>)
    ensures TallyElects(votes) ==> SomeGrant(votes) && 2 * (1 + CountTrue(votes)) > |votes| + 1
  {
    CountTruePrefixes(votes);
    exists k :: 0 <= k < |votes| && votes[k] && 1 + CountTrue(votes[..k + 1]) >= Quorum(|votes|)
  }

  /** The tally in closed form: the candidate wins exactly when at least one vote is
      granted and its own vote plus the granted ones reach the quorum. */
  lemma TallyElectsIff(votes: seq<bool>)
    ensures TallyElects(votes) <==> SomeGrant(votes) && 1 + CountTrue(votes) >= Quorum(|votes|)
  {
    var q := Quorum(|votes|);
    if TallyElects(votes) {
      var k :| 0 <= k < |votes| && votes[k] && 1 + CountTrue(votes[..k + 1]) >= q;
      CountTruePrefix(votes, k + 1);
    }
    if SomeGrant(votes) && 1 + CountTrue(votes) >= q {
      assert votes[..|votes|] == votes;
      ReachingGrantFound(votes, |votes|, q);
    }
  }

  /** At least one vote was granted. */
  predicate SomeGrant(votes: seq<bool>) {
    exists k :: 0 <= k < |votes| && votes[k]
  }

  /** Within the first `n` votes, if one is granted and the total reaches `q`, some
      granted vote is the one at which the running tally first reaches `q`. */
  lemma {:induction false} ReachingGrantFound(votes: seq<bool>, n: nat, q: int)
    requires n <= |votes|
    requires exists k :: 0 <= k < n && votes[k]
    requires 1 + CountTrue(votes[..n]) >= q
    ensures exists k :: 0 <= k < n && votes[k] && 1 + CountTrue(votes[..k + 1]) >= q
    decreases n
  {
    if votes[n - 1] {
      assert votes[n - 1] && 1 + CountTrue(votes[..n]) >= q;
    } else {
      var k :| 0 <= k < n && votes[k];
      assert k < n - 1;
      assert votes[..n][..n - 1] == votes[..n - 1];
      ReachingGrantFound(votes, n - 1, q);
    }
  }

  /** Finding: with no peers the quorum is 1, which the candidate's own vote already
      meets, yet the tally never checks it because no vote ever arrives. */
  lemma SingleNodeNeverElected()
    ensures 1 >= Quorum(0)
    ensures !TallyElects([])
  {
  }

  /** The corrected tally: the candidate's own vote counts toward the quorum even when
      no other vote arrives. */
  predicate IntendedTallyElects(votes: seq<bool>)
    ensures IntendedTallyElects(votes) <==> 2 * (1 + CountTrue(votes)) > |votes| + 1
  {
    1 + CountTrue(votes) >= Quorum(|votes|)
  }

  /** The corrected tally elects a lone node, and agrees with the as-written one
      whenever there is at least one peer. */
  lemma IntendedTallyAgrees(votes: seq<bool>)
    ensures |votes| == 0 ==> IntendedTallyElects(votes)
    ensures |votes| > 0 ==> (IntendedTallyElects(votes) <==> TallyElects(votes))
  {
    TallyElectsIff(votes);
    if |votes| > 0 && IntendedTallyElects(votes) {
      if !SomeGrant(votes) {
        NoGrantCountsZero(votes);
      }
    }
  }

  lemma {:induction false} NoGrantCountsZero(votes: seq<bool>)
    requires forall k :: 0 <= k < |votes| ==> !votes[k]
    ensures CountTrue(votes) == 0
    decreases |votes|
  {
    if votes != [] {
      NoGrantCountsZero(votes[..|votes| - 1]);
    }
  }
}
