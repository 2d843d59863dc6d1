/** The history of one file over the snapshots of a source: file_version_history
    in app/api/catalog.py. */
module Catalog {
  import opened Basics
  import opened Hashing
  import opened Records
  import BackupWorker
  import Cas
  import Cdc
  import Invariants
  import Runs

  datatype FileVersion = FileVersion(snapshot: nat, created: int, size: nat, chunkCount: nat, changed: bool)

  /** One turn of the walk, before snapshot times are looked up. */
  datatype Entry = Entry(snapshot: nat, hashes: seq<Digest>, changed: bool, size: nat)

  /** The record of a path; the last one when a walk listed the path twice. */
  function FileIn(records: seq<FileRecord>, path: string): Option<FileRecord>
    decreases |records|
  {
    if records == [] then None else
      var k := |records| - 1;
      if records[k].path == path then Some(records[k]) else FileIn(records[..k], path)
  }

  /** What the newest-first query with a limit may answer for a source. */
  ghost predicate IsNewest(snaps: Snapshots, source: nat, limit: nat, ids: seq<nat>) {
    && |ids| <= limit
    && (forall i :: 0 <= i < |ids| ==> ids[i] in snaps && snaps[ids[i]].source == source)
    && (forall i, j :: 0 <= i < j < |ids| ==> ids[i] != ids[j] && snaps[ids[i]].created >= snaps[ids[j]].created)
    && (forall id :: id in snaps && snaps[id].source == source && id !in ids ==>
          |ids| == limit && forall i :: 0 <= i < |ids| ==> snaps[ids[i]].created >= snaps[id].created)
  }

  ghost predicate Known(snaps: Snapshots, ids: seq<nat>) {
    forall i :: 0 <= i < |ids| ==> ids[i] in snaps
  }

  /** The file as the walk saw it in the snapshot just before the newest of ids. */
  function HeadFile(snaps: Snapshots, ids: seq<nat>, path: string): Option<FileRecord>
    requires Known(snaps, ids)
  {
    if ids == [] then None else FileIn(snaps[ids[0]].files, path)
  }

  /** A version counts as unchanged only when the snapshot just before also has the file, with the same digests. */
  function VersionOf(snaps: Snapshots, id: nat, file: FileRecord, before: Option<FileRecord>): FileVersion
    requires id in snaps
  {
    FileVersion(id, snaps[id].created, file.size, |file.hashes|,
                before.None? || before.value.hashes != file.hashes)
  }

  /** The versions of a file, for snapshots listed newest first. */
  function Versions(snaps: Snapshots, ids: seq<nat>, path: string): seq<FileVersion>
    requires Known(snaps, ids)
  {
    if ids == [] then [] else
      var file := HeadFile(snaps, ids, path);
      (if file.Some? then [VersionOf(snaps, ids[0], file.value, HeadFile(snaps, ids[1..], path))] else [])
      + Versions(snaps, ids[1..], path)
  }

  // ----- the walk -----

  function Reverse<T>(xs: seq<T>): (ys: seq<T>)
    ensures |ys| == |xs|
    ensures forall i :: 0 <= i < |xs| ==> ys[i] == xs[|xs| - 1 - i]
  {
    seq(|xs|, i requires 0 <= i < |xs| => xs[|xs| - 1 - i])
  }

  function Dated(snaps: Snapshots, e: Entry): FileVersion {
    FileVersion(e.snapshot, if e.snapshot in snaps then snaps[e.snapshot].created else 0, e.size, |e.hashes|, e.changed)
  }

  /** The response for the entries collected so far: newest first, with times. */
  function Response(snaps: Snapshots, entries: seq<Entry>): seq<FileVersion> {
    Map(e => Dated(snaps, e), Reverse(entries))
  }

  lemma ResponseSnoc(snaps: Snapshots, entries: seq<Entry>, e: Entry)
    ensures Response(snaps, entries + [e]) == [Dated(snaps, e)] + Response(snaps, entries)
  {
    assert Reverse(entries + [e]) == [e] + Reverse(entries);
    MapAppend((e: Entry) => Dated(snaps, e), [e], Reverse(entries));
  }

  /** Oldest to newest with the digests of the file in the snapshot before, then reversed. */
  method FileVersionHistory(snaps: Snapshots, snapIds: seq<nat>, path: string) returns (versions: seq<FileVersion>)
    requires Known(snaps, snapIds)
    ensures versions == Versions(snaps, snapIds, path)
  {
    var orderedIds := Reverse(snapIds);
    var entries: seq<Entry> := [];
    var prevHashes: Option<seq<Digest>> := None;
    for k := 0 to |orderedIds|
      invariant var seen := snapIds[|snapIds| - k..];
                && Response(snaps, entries) == Versions(snaps, seen, path)
                && prevHashes == match HeadFile(snaps, seen, path) case None => None case Some(f) => Some(f.hashes)
    {
      var snapId := orderedIds[k];
      ghost var seen := snapIds[|snapIds| - k - 1..];
      assert seen[0] == snapId && seen[1..] == snapIds[|snapIds| - k..];
      var sf := FileIn(snaps[snapId].files, path);
      if sf.None? {
        prevHashes := None;
      } else {
        var hashes := sf.value.hashes;
        var changed := prevHashes.None? || hashes != prevHashes.value;
        ResponseSnoc(snaps, entries, Entry(snapId, hashes, changed, sf.value.size));
        entries := entries + [Entry(snapId, hashes, changed, sf.value.size)];
        prevHashes := Some(hashes);
      }
    }
    assert snapIds[0..] == snapIds;
    versions := Response(snaps, entries);
  }

  // ----- what the history says -----

  ghost predicate VersionAt(snaps: Snapshots, ids: seq<nat>, path: string, k: nat, v: FileVersion)
    requires Known(snaps, ids) && k < |ids|
  {
    var file := HeadFile(snaps, ids[k..], path);
    file.Some? && v == VersionOf(snaps, ids[k], file.value, HeadFile(snaps, ids[k + 1..], path))
  }

  /** One version for each listed snapshot that holds the path, and no other. */
  lemma {:induction false} VersionsExactly(snaps: Snapshots, ids: seq<nat>, path: string, v: FileVersion)
    requires Known(snaps, ids)
    ensures v in Versions(snaps, ids, path)
       <==> exists k :: 0 <= k < |ids| && VersionAt(snaps, ids, path, k, v)
  {
    if ids == [] {
    } else {
      VersionsExactly(snaps, ids[1..], path, v);
      assert ids[0..] == ids;
      assert VersionAt(snaps, ids, path, 0, v) <==>
             HeadFile(snaps, ids, path).Some? &&
             v == VersionOf(snaps, ids[0], HeadFile(snaps, ids, path).value, HeadFile(snaps, ids[1..], path));
      forall k | 1 <= k < |ids|
        ensures VersionAt(snaps, ids, path, k, v) == VersionAt(snaps, ids[1..], path, k - 1, v)
      {
        assert ids[k..] == ids[1..][k - 1..] && ids[k + 1..] == ids[1..][k..];
      }
      if k :| 0 <= k < |ids[1..]| && VersionAt(snaps, ids[1..], path, k, v) {
        assert VersionAt(snaps, ids, path, k + 1, v);
      }
    }
  }

  /** Newest first, like the list of snapshots: the snapshots without the path drop out. */
  lemma {:induction false} VersionsInOrder(snaps: Snapshots, ids: seq<nat>, path: string, absent: set<nat>)
    requires Known(snaps, ids)
    requires forall i :: 0 <= i < |ids| ==> (ids[i] in absent <==> FileIn(snaps[ids[i]].files, path).None?)
    ensures Map((v: FileVersion) => v.snapshot, Versions(snaps, ids, path)) == Without(ids, absent)
  {
    if ids == [] {
    } else {
      VersionsInOrder(snaps, ids[1..], path, absent);
      var rest := Versions(snaps, ids[1..], path);
      var file := HeadFile(snaps, ids, path);
      if file.Some? {
        MapAppend((v: FileVersion) => v.snapshot,
                  [VersionOf(snaps, ids[0], file.value, HeadFile(snaps, ids[1..], path))], rest);
      }
    }
  }

  /** The version before is from the snapshot before: none of this source lies between. */
  lemma NeighboursConsecutive(snaps: Snapshots, source: nat, limit: nat, ids: seq<nat>, k: nat, id: nat)
    requires IsNewest(snaps, source, limit, ids) && k + 1 < |ids|
    requires id in snaps && snaps[id].source == source
    ensures !(snaps[ids[k + 1]].created < snaps[id].created < snaps[ids[k]].created)
  {
    if id in ids {
      var j :| 0 <= j < |ids| && ids[j] == id;
      assert j <= k ==> j == k || snaps[id].created >= snaps[ids[k]].created;
    }
  }

  /** The record of a path holds the size and the digests of the bytes it had. */
  lemma {:induction false} RecordOfPath(H: Hasher, files: seq<SourceFile>, path: string)
    ensures var dir := Invariants.Directory(files);
            FileIn(BackupWorker.Manifest(H, files), path) ==
              if path in dir then Some(BackupWorker.Record(H, SourceFile(path, dir[path]))) else None
    decreases |files|
  {
    if files == [] {
    } else {
      var k := |files| - 1;
      RecordOfPath(H, files[..k], path);
      assert BackupWorker.Manifest(H, files)[..k] == BackupWorker.Manifest(H, files[..k]);
    }
  }

  /** Equal digest lists mean equal bytes. */
  lemma DigestsTellBytes(H: Hasher, a: Bytes, b: Bytes)
    requires ChunkInjective(H)
    ensures BackupWorker.Digests(H, Cdc.Chunks(a)) == BackupWorker.Digests(H, Cdc.Chunks(b)) <==> a == b
  {
    var x, y := Cdc.Chunks(a), Cdc.Chunks(b);
    if BackupWorker.Digests(H, x) == BackupWorker.Digests(H, y) {
      assert |x| == |y|;
      forall i | 0 <= i < |x|
        ensures x[i] == y[i]
      {
        assert H.chunk(x[i]) == BackupWorker.Digests(H, x)[i];
        assert H.chunk(y[i]) == BackupWorker.Digests(H, y)[i];
      }
      Cdc.ChunksInjective(a, b);
    }
  }

  /** The bytes a path had in the files behind the snapshot at position k of a newest-first list. */
  ghost function BytesAt(content: map<nat, seq<SourceFile>>, ids: seq<nat>, path: string, k: nat): Option<Bytes>
    requires forall i :: 0 <= i < |ids| ==> ids[i] in content
  {
    if k < |ids| && path in Invariants.Directory(content[ids[k]])
    then Some(Invariants.Directory(content[ids[k]])[path]) else None
  }

  lemma FileAtIs(H: Hasher, snaps: Snapshots, log: Invariants.History, ids: seq<nat>, path: string, k: nat)
    requires k <= |ids| && Invariants.Manifested(H, snaps, log) && Known(snaps, ids)
    ensures HeadFile(snaps, ids[k..], path) ==
              match BytesAt(log.content, ids, path, k)
              case None => None
              case Some(data) => Some(BackupWorker.Record(H, SourceFile(path, data)))
  {
    if k < |ids| {
      RecordOfPath(H, log.content[ids[k]], path);
    }
  }

  /** What an observer of the run would write down for the file in snapshot k. */
  ghost predicate TrueVersion(w: Runs.World, ids: seq<nat>, path: string, k: nat, v: FileVersion)
    requires k < |ids| && Known(w.st.snaps, ids) && forall i :: 0 <= i < |ids| ==> ids[i] in w.log.content
  {
    match BytesAt(w.log.content, ids, path, k)
    case None => false
    case Some(data) =>
      && v.snapshot == ids[k] && v.created == w.st.snaps[ids[k]].created
      && v.size == |data| && v.chunkCount == |Cdc.Chunks(data)|
      && (!v.changed <==> BytesAt(w.log.content, ids, path, k + 1) == Some(data))
  }

  lemma VersionIsTrue(H: Hasher, w: Runs.World, ids: seq<nat>, path: string, k: nat, v: FileVersion)
    requires ChunkInjective(H) && Invariants.Manifested(H, w.st.snaps, w.log) && k < |ids| && Known(w.st.snaps, ids)
    ensures VersionAt(w.st.snaps, ids, path, k, v) == TrueVersion(w, ids, path, k, v)
  {
    FileAtIs(H, w.st.snaps, w.log, ids, path, k);
    FileAtIs(H, w.st.snaps, w.log, ids, path, k + 1);
    if BytesAt(w.log.content, ids, path, k).Some? && BytesAt(w.log.content, ids, path, k + 1).Some? {
      DigestsTellBytes(H, BytesAt(w.log.content, ids, path, k + 1).value, BytesAt(w.log.content, ids, path, k).value);
    }
  }

  /** In every reachable state, for any list of snapshots, synthetic ones included: a snapshot
      has a version of the path exactly when the path was in the files it stands for, with its
      size; and the version is unchanged exactly when the snapshot just before in the list
      stands for the same bytes. */
  lemma HistoryTellsChanges(env: Cas.Env, fk: bool, now: int, steps: seq<Runs.Step>, ids: seq<nat>, path: string, v: FileVersion)
    requires Invariants.Assumptions(env) && Runs.ValidRun(env, fk, Runs.Start(now), steps)
    requires Known(Runs.Final(env, fk, Runs.Start(now), steps).st.snaps, ids)
    ensures forall i :: 0 <= i < |ids| ==> ids[i] in Runs.Final(env, fk, Runs.Start(now), steps).log.content
    ensures var w := Runs.Final(env, fk, Runs.Start(now), steps);
            (v in Versions(w.st.snaps, ids, path) <==> exists k :: 0 <= k < |ids| && TrueVersion(w, ids, path, k, v))
  {
    Runs.RunSound(env, fk, now, steps);
    var w := Runs.Final(env, fk, Runs.Start(now), steps);
    VersionsExactly(w.st.snaps, ids, path, v);
    forall k | 0 <= k < |ids|
      ensures VersionAt(w.st.snaps, ids, path, k, v) == TrueVersion(w, ids, path, k, v)
    {
      VersionIsTrue(env.hasher, w, ids, path, k, v);
    }
  }
}
