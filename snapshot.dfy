/** The in-memory bookkeeping of the snapshot store (pkg/kvstore/snapshot.go): the list of
    retained snapshot metadata, the latest snapshot taken, the retention of the newest
    three, and the lookup by index. Files, gob and gzip are abstracted: what writing a
    file came to is passed in, and reading back is a map from a snapshot's timestamp to
    what its file decodes to. */
module Snapshots {
  import opened Wrappers

  /** How many snapshots the store keeps. */
  const RETAIN_SNAPSHOTS: nat := 3

  type Bytes = seq<bv8>

  datatype Snapshot = Snapshot(lastIncludedIndex: int, lastIncludedTerm: int, data: Bytes)

  /** `time` is the wall-clock reading, in nanoseconds, taken when the snapshot was written;
      the snapshot's file is named after it. */
  datatype SnapshotMetadata = SnapshotMetadata(index: int, term: int, size: int, time: int)

  datatype SnapshotError =
    | StaleIndex        // the index is not past the latest snapshot
    | CreateFailed      // the file could not be created
    | EncodeFailed      // the encoder failed; the file is removed again
    | OpenFailed        // the file of a retained snapshot could not be opened
    | DecodeFailed      // the file could not be decompressed or decoded
    | NotFound          // no retained snapshot has the index

  /** What creating and encoding a snapshot file came to. */
  datatype WriteOutcome = CannotCreate | CannotEncode | Written(size: int)

  /** What the file of a snapshot holds when read back. */
  datatype FileContent = Corrupt | Stored(snapshot: Snapshot)

  /** The retained snapshots are ordered by strictly increasing index. */
  predicate IndicesIncreasing(s: seq<SnapshotMetadata>) {
    forall i, j :: 0 <= i < j < |s| ==> s[i].index < s[j].index
  }

  /** The snapshots cleanupOldSnapshots keeps: the newest RETAIN_SNAPSHOTS, in order. */
  function Retain(s: seq<SnapshotMetadata>): (kept: seq<SnapshotMetadata>)
    ensures |s| <= RETAIN_SNAPSHOTS ==> kept == s
    ensures |s| > RETAIN_SNAPSHOTS ==> |kept| == RETAIN_SNAPSHOTS
    ensures |kept| <= RETAIN_SNAPSHOTS && |kept| <= |s|
    ensures kept == s[|s| - |kept|..]
  {
    if |s| <= RETAIN_SNAPSHOTS then s else s[|s| - RETAIN_SNAPSHOTS..]
  }

  /** The snapshots cleanupOldSnapshots drops: all but the newest RETAIN_SNAPSHOTS. */
  function Dropped(s: seq<SnapshotMetadata>): (dropped: seq<SnapshotMetadata>)
    ensures |s| <= RETAIN_SNAPSHOTS ==> dropped == []
    ensures |s| > RETAIN_SNAPSHOTS ==> |dropped| == |s| - RETAIN_SNAPSHOTS
    ensures dropped == s[..|dropped|]
  {
    s[..|s| - |Retain(s)|]
  }

  /** Cleanup loses nothing and reorders nothing: the dropped snapshots followed by the
      kept ones are the list it started from. */
  lemma DroppedThenRetained(s: seq<SnapshotMetadata>)
    ensures Dropped(s) + Retain(s) == s
  {
    var cut := |s| - |Retain(s)|;
    assert s == s[..cut] + s[cut..];
  }

  /** Retention keeps the newest snapshot and keeps the indices increasing. */
  lemma RetainKeepsNewest(s: seq<SnapshotMetadata>)
    ensures s != [] ==> Retain(s) != [] && Retain(s)[|Retain(s)| - 1] == s[|s| - 1]
    ensures IndicesIncreasing(s) ==> IndicesIncreasing(Retain(s))
  {
    var kept := Retain(s);
    var cut := |s| - |kept|;
    assert kept == s[cut..];
    if IndicesIncreasing(s) {
      forall i, j | 0 <= i < j < |kept|
        ensures kept[i].index < kept[j].index
      {
        assert kept[i] == s[cut + i] && kept[j] == s[cut + j];
      }
    }
  }

  /** Retention keeps only snapshots of the list, so a bound on every index survives it. */
  lemma RetainKeepsBound(s: seq<SnapshotMetadata>, bound: int)
    requires forall k :: 0 <= k < |s| ==> s[k].index <= bound
    ensures forall k :: 0 <= k < |Retain(s)| ==> Retain(s)[k].index <= bound
  {
    var kept := Retain(s);
    var cut := |s| - |kept|;
    forall k | 0 <= k < |kept|
      ensures kept[k].index <= bound
    {
      assert kept[k] == s[cut + k];
    }
  }

  /** Retaining twice keeps the same snapshots as retaining once. */
  lemma RetainIdempotent(s: seq<SnapshotMetadata>)
    ensures Retain(Retain(s)) == Retain(s)
  {
    var kept := Retain(s);
    assert |kept| <= RETAIN_SNAPSHOTS;
  }

  /** Appending a snapshot whose index is past the newest keeps the indices increasing. */
  lemma AppendPastNewestIncreasing(s: seq<SnapshotMetadata>, m: SnapshotMetadata)
    requires IndicesIncreasing(s)
    requires s != [] ==> s[|s| - 1].index < m.index
    ensures IndicesIncreasing(s + [m])
  {
    var grown := s + [m];
    forall i, j | 0 <= i < j < |grown|
      ensures grown[i].index < grown[j].index
    {
      if j == |s| && i < |s| - 1 {
        assert s[i].index < s[|s| - 1].index;
      }
    }
  }

  /** The timestamps of the given snapshots, which name their files. */
  function Times(s: seq<SnapshotMetadata>): seq<int> {
    seq(|s|, k requires 0 <= k < |s| => s[k].time)
  }

  /** The position of the first snapshot with the given index, if any. */
  function FirstWithIndex(s: seq<SnapshotMetadata>, index: int): (pos: Option<nat>)
    ensures pos.None? <==> forall k :: 0 <= k < |s| ==> s[k].index != index
    ensures pos.Some? ==> pos.value < |s| && s[pos.value].index == index
    ensures pos.Some? ==> forall k :: 0 <= k < pos.value ==> s[k].index != index
  {
    if s == [] then None
    else if s[0].index == index then Some(0)
    else
      match FirstWithIndex(s[1..], index)
      case None => None
      case Some(p) => Some(p + 1)
  }

  /** With increasing indices at most one snapshot has a given index, so the first match
      is the only one. */
  lemma IncreasingIndexUnique(s: seq<SnapshotMetadata>, k: int)
    requires IndicesIncreasing(s)
    requires 0 <= k < |s|
    ensures FirstWithIndex(s, s[k].index) == Some(k)
  {
  }

  /** Reading back the file of a snapshot taken at `time`: a missing file fails to open,
      a corrupt one fails to decode. */
  function ReadSnapshot(files: map<int, FileContent>, time: int): Result<Snapshot, SnapshotError> {
    if time !in files then Failure(OpenFailed)
    else match files[time]
      case Corrupt => Failure(DecodeFailed)
      case Stored(snapshot) => Success(snapshot)
  }

  /** The retained snapshots have increasing indices, there are at most three of them,
      and none is past the latest. */
  predicate WellFormed(snapshots: seq<SnapshotMetadata>, latest: Option<SnapshotMetadata>) {
    IndicesIncreasing(snapshots) &&
    |snapshots| <= RETAIN_SNAPSHOTS &&
    (snapshots != [] ==> latest.Some?) &&
    (latest.Some? ==> forall k :: 0 <= k < |snapshots| ==> snapshots[k].index <= latest.value.index)
  }

  /** Recording a snapshot past the latest one, then cleaning up, keeps the store well formed
      and leaves the new snapshot as the newest retained one. */
  lemma RecordKeepsWellFormed(s: seq<SnapshotMetadata>, latest: SnapshotMetadata, m: SnapshotMetadata)
    requires WellFormed(s, Some(latest)) && m.index > latest.index
    ensures var kept := Retain(s + [m]);
            WellFormed(kept, Some(m)) && kept != [] && kept[|kept| - 1] == m
  {
    var grown := s + [m];
    AppendPastNewestIncreasing(s, m);
    assert forall k :: 0 <= k < |grown| ==> grown[k].index <= m.index;
    RetainKeepsNewest(grown);
    RetainKeepsBound(grown, m.index);
  }

  class SnapshotStore {
    /** The newest snapshot taken or loaded, `nil` in the source when there is none. */
    var latest: Option<SnapshotMetadata>
    /** The metadata of the retained snapshots, oldest first. */
    var snapshots: seq<SnapshotMetadata>
    /** Whether files are gzip-compressed; it only affects the file format. */
    const compress: bool

    ghost predicate Valid()
      reads this
    {
      WellFormed(snapshots, latest)
    }

    /** A new store: no retained snapshots, and as latest whatever loading the newest file
        on disk produced (`None` when there was none or it failed). */
    constructor(compress: bool, loaded: Option<SnapshotMetadata>)
      ensures Valid()
      ensures this.compress == compress && latest == loaded && snapshots == []
    {
      this.compress := compress;
      latest := loaded;
      snapshots := [];
    }

    /** CreateSnapshot: refuses an index that is not past the latest snapshot, writes the
        file, and on success records its metadata, makes it the latest and drops all but
        the newest three. `write` is what creating and encoding the file came to, `now`
        the clock reading stored in the metadata. */
    method CreateSnapshot(index: int, term: int, data: Bytes, write: WriteOutcome, now: int)
      returns (err: Outcome<SnapshotError>, removed: seq<int>)
      requires Valid() && latest.Some?
      modifies this
      ensures index <= old(latest).value.index ==> err == Fail(StaleIndex)
      ensures index > old(latest).value.index && write == CannotCreate ==> err == Fail(CreateFailed)
      ensures index > old(latest).value.index && write == CannotEncode ==> err == Fail(EncodeFailed)
      ensures err.Fail? ==> removed == [] && latest == old(latest) && snapshots == old(snapshots)
      ensures index > old(latest).value.index && write.Written? ==>
        err == Pass &&
        latest == Some(SnapshotMetadata(index, term, write.size, now)) &&
        snapshots == Retain(old(snapshots) + [latest.value]) &&
        removed == Times(Dropped(old(snapshots) + [latest.value])) &&
        snapshots != [] && snapshots[|snapshots| - 1] == latest.value
      ensures Valid()
    {
      removed := [];
      if index <= latest.value.index {
        return Fail(StaleIndex), removed;
      }
      match write {
      case CannotCreate =>
        return Fail(CreateFailed), removed;
      case CannotEncode =>
        return Fail(EncodeFailed), removed;
      case Written(size) =>
        removed := Record(SnapshotMetadata(index, term, size, now));
        return Pass, removed;
    }
    }

    /** The bookkeeping after a snapshot file is written: its metadata is appended and
        becomes the latest, then old snapshots are cleaned up. */
    method Record(metadata: SnapshotMetadata) returns (removed: seq<int>)
      requires Valid() && latest.Some? && metadata.index > latest.value.index
      modifies this
      ensures latest == Some(metadata)
      ensures snapshots == Retain(old(snapshots) + [metadata])
      ensures removed == Times(Dropped(old(snapshots) + [metadata]))
      ensures snapshots != [] && snapshots[|snapshots| - 1] == metadata
      ensures Valid()
    {
      RecordKeepsWellFormed(snapshots, latest.value, metadata);
      snapshots := snapshots + [metadata];
      latest := Some(metadata);
      removed := CleanupOldSnapshots();
    }

    /** cleanupOldSnapshots: keeps the newest three snapshots in their order and returns
        the timestamps naming the files of the dropped ones, oldest first. */
    method CleanupOldSnapshots() returns (removed: seq<int>)
      modifies this
      ensures latest == old(latest)
      ensures snapshots == Retain(old(snapshots))
      ensures removed == Times(Dropped(old(snapshots)))
    {
      removed := [];
      if |snapshots| <= RETAIN_SNAPSHOTS {
        return;
      }
      var toDelete := |snapshots| - RETAIN_SNAPSHOTS;
      for i := 0 to toDelete
        invariant removed == Times(snapshots[..i])
      {
        assert snapshots[..i + 1] == snapshots[..i] + [snapshots[i]];
        removed := removed + [snapshots[i].time];
      }
      snapshots := snapshots[toDelete..];
    }

    /** GetSnapshot: the first retained snapshot with the index is read back from its
        file; "not found" when none has it. `files` is what each file decodes to. */
    method GetSnapshot(index: int, files: map<int, FileContent>) returns (r: Result<Snapshot, SnapshotError>)
      ensures r == Failure(NotFound) <==> forall k :: 0 <= k < |snapshots| ==> snapshots[k].index != index
      ensures FirstWithIndex(snapshots, index).Some? ==>
        r == ReadSnapshot(files, snapshots[FirstWithIndex(snapshots, index).value].time)
    {
      var i := 0;
      while i < |snapshots|
        invariant 0 <= i <= |snapshots|
        invariant forall k :: 0 <= k < i ==> snapshots[k].index != index
      {
        var meta := snapshots[i];
        if meta.index == index {
          assert FirstWithIndex(snapshots, index) == Some(i);
          r := ReadSnapshot(files, meta.time);
          return;
        }
        i := i + 1;
      }
      r := Failure(NotFound);
    }
  }

  /** After a snapshot is recorded, looking up its index finds it as the newest retained
      snapshot. */
  lemma {:induction false} CreatedSnapshotFound(s: seq<SnapshotMetadata>, m: SnapshotMetadata)
    requires IndicesIncreasing(s + [m])
    ensures var kept := Retain(s + [m]);
            kept != [] && FirstWithIndex(kept, m.index) == Some(|kept| - 1)
  {
    var grown := s + [m];
    RetainKeepsNewest(grown);
    var kept := Retain(grown);
    IncreasingIndexUnique(kept, |kept| - 1);
  }
}
