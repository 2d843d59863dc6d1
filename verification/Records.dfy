/** The database rows of app/models/backup.py, next to the chunk store. */
module Records {
  import opened Basics
  import opened Hashing
  import opened Cas

  /** One file as the worker reads it, in walk order. */
  datatype SourceFile = SourceFile(path: string, data: Bytes)

  /** A snapshot_files row: the complete chunk manifest of one file. */
  datatype FileRecord = FileRecord(path: string, size: nat, hashes: seq<Digest>)

  /** A backup_chunks row. */
  datatype ChunkRow = ChunkRow(hash: Digest, size: nat, stored: nat, entropy: real)

  /** A backup_snapshots row with the rows that belong to it, in id order. */
  datatype Snapshot = Snapshot(
    source: nat, root: Digest, parent: Option<nat>,
    totalSize: nat, dedupSize: nat, chunkCount: nat, newChunkCount: nat,
    created: int, lockedUntil: Option<int>, lastVerified: Option<int>, passed: Option<bool>,
    files: seq<FileRecord>, rows: seq<ChunkRow>)

  type Snapshots = map<nat, Snapshot>

  /** restoreJobs holds the snapshots that some restore job names. */
  datatype State = State(disk: Disk, snaps: Snapshots, restoreJobs: set<nat>, nextId: nat, now: int)

  function RowHashes(s: Snapshot): (hashes: seq<Digest>)
    ensures |hashes| == |s.rows|
  {
    Map((r: ChunkRow) => r.hash, s.rows)
  }

  function RowSet(s: Snapshot): set<Digest> {
    Elements(RowHashes(s))
  }

  /** Every hash that some backup_chunks row names. */
  ghost function AllRows(snaps: Snapshots): set<Digest> {
    set id, d | id in snaps && d in RowSet(snaps[id]) :: d
  }

  ghost predicate Referenced(snaps: Snapshots, d: Digest) {
    exists id :: id in snaps && d in RowSet(snaps[id])
  }

  function AllHashes(records: seq<FileRecord>): seq<Digest> {
    Flatten(Map((f: FileRecord) => f.hashes, records))
  }

  lemma NoRecordsNoHashes()
    ensures AllHashes([]) == []
  {
  }

  ghost predicate HasChild(snaps: Snapshots, id: nat) {
    exists child :: child in snaps && snaps[child].parent == Some(id)
  }

  ghost predicate ParentsOfSameSource(snaps: Snapshots) {
    forall c, p :: c in snaps && p in snaps && snaps[c].parent == Some(p) ==> snaps[p].source == snaps[c].source
  }

  predicate Locked(s: Snapshot, now: int) {
    s.lockedUntil.Some? && s.lockedUntil.value > now
  }

  /** What `order_by(created_at.desc()).limit(1)` may answer for a source. */
  ghost predicate IsLatest(snaps: Snapshots, source: nat, answer: Option<nat>) {
    match answer
    case None => forall id :: id in snaps ==> snaps[id].source != source
    case Some(latest) =>
      && latest in snaps && snaps[latest].source == source
      && forall id :: id in snaps && snaps[id].source == source ==> snaps[id].created <= snaps[latest].created
  }

  class Database {
    const cas: CASStore
    const enforcesForeignKeys: bool
    var snaps: Snapshots
    var restoreJobs: set<nat>
    var nextId: nat
    var now: int

    constructor (cas: CASStore, enforcesForeignKeys: bool, now: int)
      ensures this.cas == cas && this.enforcesForeignKeys == enforcesForeignKeys
      ensures Current() == State.State(cas.files, map[], {}, 1, now)
    {
      this.cas := cas;
      this.enforcesForeignKeys := enforcesForeignKeys;
      snaps, restoreJobs, nextId := map[], {}, 1;
      this.now := now;
    }

    ghost function Current(): State
      reads this, cas
    {
      State.State(cas.files, snaps, restoreJobs, nextId, now)
    }

    method QueryLatest(source: nat) returns (latest: Option<nat>)
      ensures IsLatest(snaps, source, latest)
    {
      latest := None;
      var rest := snaps.Keys;
      while rest != {}
        invariant rest <= snaps.Keys
        invariant IsLatest(map id | id in snaps && id !in rest :: snaps[id], source, latest)
        decreases |rest|
      {
        var id :| id in rest;
        if snaps[id].source == source && (latest.None? || snaps[latest.value].created < snaps[id].created) {
          latest := Some(id);
        }
        rest := rest - {id};
      }
      assert snaps == map id | id in snaps && id !in rest :: snaps[id];
    }
  }
}
