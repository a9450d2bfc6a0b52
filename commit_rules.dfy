/** The leader's commit rule (pkg/raft/replication.go, updateCommitIndex): the match
    indices of the peers and the leader's own last index are sorted and the element at
    position n/2 is taken. This module gives the sort, the median and what the median
    means: the highest index that at least ceil(n/2) of the n values reach. */
module CommitRules {
  import opened RaftTypes

  predicate SortedAsc(s: seq<int>) {
    forall i, j :: 0 <= i < j < |s| ==> s[i] <= s[j]
  }

  /** Inserts `x` into a sorted sequence. */
  function Insert(x: int, s: seq<int>): (r: seq<int>)
    requires SortedAsc(s)
    ensures SortedAsc(r)
    ensures multiset(r) == multiset(s) + multiset{x}
    ensures |r| == |s| + 1
    ensures r[0] == if s == [] || x <= s[0] then x else s[0]
  {
    if s == [] || x <= s[0] then [x] + s
    else
      var rest := Insert(x, s[1..]);
      assert s == [s[0]] + s[1..];
      [s[0]] + rest
  }

  /** Ascending sort (Go's sort.Ints), by insertion. */
  function SortInts(xs: seq<int>): (r: seq<int>)
    ensures SortedAsc(r)
    ensures multiset(r) == multiset(xs)
    ensures |r| == |xs|
  {
    if xs == [] then []
    else
      assert xs == [xs[0]] + xs[1..];
      Insert(xs[0], SortInts(xs[1..]))
  }

  /** The first element of a sorted sequence is its least. */
  lemma SortedHeadIsLeast(s: seq<int>, x: int)
    requires SortedAsc(s)
    requires x in s
    ensures s[0] <= x
  {
    var i :| 0 <= i < |s| && s[i] == x;
    assert i == 0 || s[0] <= s[i];
  }

  /** Two sorted sequences holding the same values are equal. */
  lemma {:induction false} SortedUnique(s: seq<int>, t: seq<int>)
    requires SortedAsc(s) && SortedAsc(t)
    requires multiset(s) == multiset(t)
    ensures s == t
    decreases |s|
  {
    assert |s| == |multiset(s)| == |multiset(t)| == |t|;
    if s != [] {
      assert s[0] in multiset(t) && t[0] in multiset(s);
      SortedHeadIsLeast(t, s[0]);
      SortedHeadIsLeast(s, t[0]);
      assert s == [s[0]] + s[1..];
      assert t == [t[0]] + t[1..];
      assert s[0] == t[0];
      assert multiset(s) == multiset{s[0]} + multiset(s[1..]);
      assert multiset(t) == multiset{t[0]} + multiset(t[1..]);
      assert multiset(s[1..]) == multiset(s) - multiset{s[0]} == multiset(t) - multiset{t[0]} == multiset(t[1..]);
      assert SortedAsc(s[1..]) && SortedAsc(t[1..]);
      SortedUnique(s[1..], t[1..]);
    }
  }

  /** ceil(n/2): the number of values at or above the median of n values. */
  function HalfUp(n: nat): nat { n - n / 2 }

  /** The element at position n/2 of the sorted values, as updateCommitIndex picks it. */
  function Median(xs: seq<int>): (m: int)
    requires |xs| > 0
    ensures m in xs
  {
    var s := SortInts(xs);
    assert s[|xs| / 2] in multiset(s);
    s[|xs| / 2]
  }

  /** The median depends only on the values, not on the order they were collected in
      (Go ranges over the matchIndex map in no fixed order). */
  lemma MedianOrderIndependent(xs: seq<int>, ys: seq<int>)
    requires |xs| > 0
    requires multiset(xs) == multiset(ys)
    ensures |ys| > 0 && Median(xs) == Median(ys)
  {
    assert |xs| == |multiset(xs)| == |multiset(ys)| == |ys|;
    SortedUnique(SortInts(xs), SortInts(ys));
  }

  /** How many of the values are at least `c`. */
  function CountAtLeast(xs: seq<int>, c: int): (n: nat)
    ensures n <= |xs|
  {
    if xs == [] then 0
    else (if xs[0] >= c then 1 else 0) + CountAtLeast(xs[1..], c)
  }

  lemma {:induction false} CountAtLeastInsert(x: int, s: seq<int>, c: int)
    requires SortedAsc(s)
    ensures CountAtLeast(Insert(x, s), c) == (if x >= c then 1 else 0) + CountAtLeast(s, c)
  {
    if s != [] && x > s[0] {
      var r := Insert(x, s);
      assert r[1..] == Insert(x, s[1..]);
      CountAtLeastInsert(x, s[1..], c);
    }
  }

  lemma {:induction false} CountAtLeastSort(xs: seq<int>, c: int)
    ensures CountAtLeast(SortInts(xs), c) == CountAtLeast(xs, c)
  {
    if xs != [] {
      CountAtLeastSort(xs[1..], c);
      CountAtLeastInsert(xs[0], SortInts(xs[1..]), c);
    }
  }

  /** If every value from position k on is at least c, at least |s| - k values are. */
  lemma {:induction false} CountAtLeastOfTail(s: seq<int>, k: nat, c: int)
    requires k <= |s|
    requires forall i :: k <= i < |s| ==> s[i] >= c
    ensures CountAtLeast(s, c) >= |s| - k
  {
    if s != [] {
      CountAtLeastOfTail(s[1..], if k == 0 then 0 else k - 1, c);
    }
  }

  /** If every value before position k is below c, at most |s| - k values reach c. */
  lemma {:induction false} CountAtLeastOfHead(s: seq<int>, k: nat, c: int)
    requires k <= |s|
    requires forall i :: 0 <= i < k ==> s[i] < c
    ensures CountAtLeast(s, c) <= |s| - k
  {
    if s != [] && k > 0 {
      CountAtLeastOfHead(s[1..], k - 1, c);
    }
  }

  lemma SortedFrom(s: seq<int>, h: nat)
    requires SortedAsc(s) && h < |s|
    ensures forall i :: h <= i < |s| ==> s[i] >= s[h]
    ensures forall i :: 0 <= i <= h ==> s[i] <= s[h]
  {
  }

  /** What the median means: it is one of the values, at least ceil(n/2) of the n values
      reach it, and no higher index is reached by that many. */
  lemma MedianIsHighestHalfReached(xs: seq<int>)
    requires |xs| > 0
    ensures Median(xs) in xs
    ensures CountAtLeast(xs, Median(xs)) >= HalfUp(|xs|)
    ensures forall c :: c > Median(xs) ==> CountAtLeast(xs, c) < HalfUp(|xs|)
  {
    var s := SortInts(xs);
    var h := |xs| / 2;
    var m := s[h];
    assert m in multiset(s);
    SortedFrom(s, h);
    CountAtLeastSort(xs, m);
    CountAtLeastOfTail(s, h, m);
    forall c | c > m
      ensures CountAtLeast(xs, c) < HalfUp(|xs|)
    {
      CountAtLeastSort(xs, c);
      CountAtLeastOfHead(s, h + 1, c);
    }
  }

  lemma NonEmptyMapHasKey(m: map<int, int>)
    requires m != map[]
    ensures exists k :: k in m
  {
    if forall k :: k !in m {
      assert false;
    }
  }

  /** Some key of a non-empty map: the one a range over the map would visit first. */
  ghost function PickKey(m: map<int, int>): (k: int)
    requires m != map[]
    ensures k in m
  {
    NonEmptyMapHasKey(m);
    var k :| k in m;
    k
  }

  /** The values of a map, in the order some enumeration of its keys visits them. */
  ghost function MapValues(m: map<int, int>): (vs: seq<int>)
    ensures |vs| == |m|
    ensures forall k :: k in m ==> m[k] in vs
    ensures forall x :: x in vs ==> exists k :: k in m && m[k] == x
    decreases |m|
  {
    if m == map[] then []
    else
      var k := PickKey(m);
      assert m.Keys == (m - {k}).Keys + {k};
      MapValues(m - {k}) + [m[k]]
  }

  /** Removing two keys in either order gives the same map, one key smaller each time. */
  lemma RemoveTwoKeys(m: map<int, int>, a: int, b: int)
    requires a in m && b in m && a != b
    ensures m - {a} - {b} == m - {b} - {a}
    ensures |m - {a}| == |m| - 1 && |m - {b}| == |m| - 1
    ensures b in m - {a} && (m - {a})[b] == m[b]
    ensures a in m - {b} && (m - {b})[a] == m[a]
  {
    assert m.Keys == (m - {a}).Keys + {a};
    assert m.Keys == (m - {b}).Keys + {b};
  }

  /** Taking any one key out first gives the same values. */
  lemma {:induction false} MapValuesRemove(m: map<int, int>, k: int)
    requires k in m
    ensures multiset(MapValues(m)) == multiset(MapValues(m - {k})) + multiset{m[k]}
    decreases |m|
  {
    var k' := PickKey(m);
    if k' != k {
      RemoveTwoKeys(m, k', k);
      var without', without := m - {k'}, m - {k};
      assert MapValues(m) == MapValues(without') + [m[k']];
      MapValuesRemove(without', k);
      MapValuesRemove(without, k');
    }
  }

  /** The candidate commit index: the median of the peers' match indices and the
      leader's own last index. */
  ghost function CommitCandidate(matchIndex: map<int, int>, log: seq<LogEntry>): int {
    Median(CommitValues(matchIndex, log))
  }

  /** The n values updateCommitIndex sorts: every match index and the leader's last index. */
  ghost function CommitValues(matchIndex: map<int, int>, log: seq<LogEntry>): (vs: seq<int>)
    ensures |vs| == |matchIndex| + 1
    ensures |log| - 1 in vs
    ensures forall p :: p in matchIndex ==> matchIndex[p] in vs
    ensures forall x :: x in vs ==> x == |log| - 1 || exists p :: p in matchIndex && matchIndex[p] == x
    ensures multiset(vs) == multiset(MapValues(matchIndex)) + multiset{|log| - 1}
  {
    MapValues(matchIndex) + [|log| - 1]
  }

  /** updateCommitIndex reads the term of the candidate only when it passes the commit
      index; this says that entry exists. */
  ghost predicate CandidateInRange(matchIndex: map<int, int>, log: seq<LogEntry>, commitIndex: int) {
    var c := CommitCandidate(matchIndex, log);
    c <= commitIndex || c < |log|
  }

  /** Every match index names an entry of the log or lies before it. */
  predicate MatchesInLog(matchIndex: map<int, int>, log: seq<LogEntry>) {
    forall p :: p in matchIndex ==> matchIndex[p] < |log|
  }

  lemma {:induction false} MapValuesBelow(m: map<int, int>, bound: int)
    requires forall p :: p in m ==> m[p] < bound
    ensures forall x :: x in MapValues(m) ==> x < bound
    decreases |m|
  {
    if m != map[] {
      var k := PickKey(m);
      MapValuesBelow(m - {k}, bound);
    }
  }

  /** When every match index lies inside the log, so does the candidate. */
  lemma MatchesInLogCandidateInRange(matchIndex: map<int, int>, log: seq<LogEntry>, commitIndex: int)
    requires MatchesInLog(matchIndex, log)
    ensures CommitCandidate(matchIndex, log) < |log|
    ensures CandidateInRange(matchIndex, log, commitIndex)
  {
    var vals := CommitValues(matchIndex, log);
    MedianIsHighestHalfReached(vals);
    MapValuesBelow(matchIndex, |log|);
    assert forall x :: x in vals ==> x < |log| by {
      forall x | x in vals
        ensures x < |log|
      {
        assert x in multiset(vals);
        assert x in MapValues(matchIndex) || x == |log| - 1;
      }
    }
  }

  /** The leader's commit index after updateCommitIndex: it never moves back, and it moves
      only to an entry of the current term that at least ceil(n/2) of the n values
      (the peers' match indices and the leader's last index) reach, the highest such index. */
  ghost function LeaderCommit(matchIndex: map<int, int>, log: seq<LogEntry>, currentTerm: int,
                              commitIndex: int): (r: int)
    requires commitIndex >= -1
    requires MatchesInLog(matchIndex, log)
    ensures CommitCandidate(matchIndex, log) < |log|
    ensures r >= commitIndex
    ensures r != commitIndex ==>
              0 <= r < |log| && log[r].term == currentTerm &&
              CountAtLeast(CommitValues(matchIndex, log), r) >= HalfUp(|matchIndex| + 1) &&
              forall c :: c > r ==> CountAtLeast(CommitValues(matchIndex, log), c) < HalfUp(|matchIndex| + 1)
    ensures r == commitIndex ==>
              var c := CommitCandidate(matchIndex, log);
              c <= commitIndex || log[c].term != currentTerm
  {
    var c := CommitCandidate(matchIndex, log);
    MedianIsHighestHalfReached(CommitValues(matchIndex, log));
    MatchesInLogCandidateInRange(matchIndex, log, commitIndex);
    if c > commitIndex && log[c].term == currentTerm then c else commitIndex
  }

  /** becomeLeader as written: every peer's matchIndex is set to 0, which in a 0-based log
      claims that the peer already holds entry 0: the map lies inside every non-empty log,
      but a leader with peers and an empty log holds a match index past its end. */
  function MatchIndexAtElectionAsWritten(peers: set<int>): (m: map<int, int>)
    ensures m.Keys == peers
    ensures forall log: seq<LogEntry> :: log != [] ==> MatchesInLog(m, log)
    ensures forall p :: p in peers ==> !MatchesInLog(m, [])
  {
    map p | p in peers :: 0
  }

  /** Finding: a leader with an empty log and three peers, after its first successful
      heartbeat (which records matchIndex -1 for that peer), selects a commit candidate
      at or past index 0, because the two silent peers still count as holding entry 0;
      the candidate passes commitIndex -1 and lies outside the log, so the term lookup
      fails. */
  lemma MatchIndexZeroCommitsPastLog()
    ensures var m := MatchIndexAtElectionAsWritten({1, 2, 3})[1 := -1];
            CommitCandidate(m, []) >= 0 && !CandidateInRange(m, [], -1)
  {
    var m := MatchIndexAtElectionAsWritten({1, 2, 3})[1 := -1];
    assert |m| == 3 by {
      assert m.Keys == {1, 2, 3};
    }
    TwoSilentPeersReachZero(m, 2, 3);
  }

  /** Finding, second effect: a leader with two peers appends an entry of its term; one
      peer then acknowledges an empty heartbeat sent before the append (matchIndex -1), and
      the other has not answered since the election (matchIndex 0 as written). The commit
      rule commits the entry although no peer is known to hold it. */
  lemma MatchIndexZeroCommitsUnreplicated(term: int)
    ensures var m := MatchIndexAtElectionAsWritten({1, 2})[1 := -1];
            var log := [LogEntry(term, [])];
            MatchesInLog(m, log) && (forall p :: p in m && m[p] != 0 ==> m[p] == -1) &&
            LeaderCommit(m, log, term, -1) == 0
  {
    var m := MatchIndexAtElectionAsWritten({1, 2})[1 := -1];
    assert |m| == 2 by {
      assert m.Keys == {1, 2};
    }
    OneSilentPeerCommitsLoneEntry(m, 2, [LogEntry(term, [])], term);
  }

  /** One peer still at 0 among two makes a leader with a one-entry log of its term
      commit that entry. */
  lemma OneSilentPeerCommitsLoneEntry(m: map<int, int>, a: int, log: seq<LogEntry>, term: int)
    requires |m| == 2 && a in m && m[a] == 0 && |log| == 1 && log[0].term == term
    requires MatchesInLog(m, log)
    ensures LeaderCommit(m, log, term, -1) == 0
  {
    var c := CommitCandidate(m, log);
    assert c >= 0 by {
      MapValuesCountAtLeast(m, a, 0);
      var vs := MapValues(m);
      var cv := CommitValues(m, log);
      assert cv == vs + [0];
      CountAtLeastAppend(vs, 0, 0);
      assert HalfUp(|cv|) == 2;
      MedianReaches(cv, 0);
    }
    MatchesInLogCandidateInRange(m, log, -1);
    assert c == 0;
  }

  /** Two peers still at 0 among three make index 0 the candidate of an empty log. */
  lemma TwoSilentPeersReachZero(m: map<int, int>, a: int, b: int)
    requires |m| == 3 && a != b
    requires a in m && m[a] == 0 && b in m && m[b] == 0
    ensures CommitCandidate(m, []) >= 0
  {
    var rest := m - {a};
    MapValuesCountAtLeast(m, a, 0);
    MapValuesCountAtLeast(rest, b, 0);
    var vs := MapValues(m);
    var cv := CommitValues(m, []);
    assert cv == vs + [-1];
    CountAtLeastAppend(vs, -1, 0);
    assert HalfUp(|cv|) == 2;
    MedianReaches(cv, 0);
  }

  /** A value reached by at least half of the values (rounded up) is at most the median. */
  lemma MedianReaches(xs: seq<int>, c: int)
    requires |xs| > 0 && CountAtLeast(xs, c) >= HalfUp(|xs|)
    ensures Median(xs) >= c
  {
    MedianIsHighestHalfReached(xs);
  }

  /** One more value adds one to the count exactly when it reaches c. */
  lemma {:induction false} CountAtLeastAppend(xs: seq<int>, x: int, c: int)
    ensures CountAtLeast(xs + [x], c) == CountAtLeast(xs, c) + (if x >= c then 1 else 0)
  {
    if xs != [] {
      assert (xs + [x])[1..] == xs[1..] + [x];
      CountAtLeastAppend(xs[1..], x, c);
    }
  }

  /** The count depends only on the values, not on their order. */
  lemma CountAtLeastPermutation(xs: seq<int>, ys: seq<int>, c: int)
    requires multiset(xs) == multiset(ys)
    ensures CountAtLeast(xs, c) == CountAtLeast(ys, c)
  {
    CountAtLeastSort(xs, c);
    CountAtLeastSort(ys, c);
    SortedUnique(SortInts(xs), SortInts(ys));
  }

  /** Taking one key out of the map takes its value out of the count. */
  lemma MapValuesCountAtLeast(m: map<int, int>, k: int, c: int)
    requires k in m
    ensures CountAtLeast(MapValues(m), c) == CountAtLeast(MapValues(m - {k}), c) + (if m[k] >= c then 1 else 0)
  {
    MapValuesRemove(m, k);
    var rest := MapValues(m - {k});
    assert multiset(rest + [m[k]]) == multiset(rest) + multiset{m[k]};
    CountAtLeastPermutation(MapValues(m), rest + [m[k]], c);
    CountAtLeastAppend(rest, m[k], c);
  }
}
