/** What every completed job keeps, and what it means for restores. */
module Invariants {
  import opened Basics
  import opened Hashing
  import opened Cas
  import opened Records
  import opened BackupWorker
  import opened Accounting
  import Cdc
  import Merkle
  import Pruner
  import RestoreWorker
  import Maintenance

  /** What an observer of a run knows about the snapshots: the files each one stands for,
      a synthetic full for those of the snapshot it copies, and which ones are synthetic. */
  datatype History = History(content: map<nat, seq<SourceFile>>, synthetic: set<nat>)

  // ----- the invariant, clause by clause -----

  ghost predicate Numbered(st: State, log: History) {
    && 0 < st.nextId && (forall id :: id in st.snaps ==> 0 < id < st.nextId)
    && (forall id :: id in log.content || id in log.synthetic ==> id < st.nextId)
    && forall id, p :: id in st.snaps && st.snaps[id].parent == Some(p) ==> p < st.nextId
  }

  /** Some row names every chunk on disk. */
  ghost predicate NoLeaks(st: State) {
    st.disk.Keys <= AllRows(st.snaps)
  }

  /** Exact GC accounting: chunks on disk and hashes in rows are the same set. */
  ghost predicate Exact(st: State) {
    st.disk.Keys == AllRows(st.snaps)
  }

  /** A snapshot's root is the Merkle root of its manifests, and no integrity check has failed. */
  ghost predicate Intact(H: Hasher, s: Snapshot) {
    s.root == Merkle.Root(H, AllHashes(s.files)) && s.passed != Some(false)
  }

  ghost predicate Manifested(H: Hasher, snaps: Snapshots, log: History) {
    forall id :: id in snaps ==>
      id in log.content && Intact(H, snaps[id]) && snaps[id].files == Manifest(H, log.content[id])
  }

  /** Rows name manifest digests; a worker-made manifest is contained in its own
      rows and those of its parent, as long as the parent is there. */
  ghost predicate Covered(snaps: Snapshots, id: nat, synthetic: set<nat>)
    requires id in snaps
  {
    var s := snaps[id];
    && RowSet(s) <= ManifestSet(s)
    && (id !in synthetic ==> match s.parent
          case None => ManifestSet(s) <= RowSet(s)
          case Some(p) => p in snaps ==> ManifestSet(s) <= RowSet(s) + RowSet(snaps[p]))
  }

  ghost predicate Coverage(snaps: Snapshots, log: History) {
    forall id :: id in snaps ==> Covered(snaps, id, log.synthetic)
  }

  /** What every job keeps, also a prune pass that the database stops. */
  ghost predicate Inv(env: Env, st: State, log: History) {
    && Numbered(st, log)
    && ParentsOfSameSource(st.snaps)
    && Faithful(env, st.disk)
    && NoLeaks(st)
    && Manifested(env.hasher, st.snaps, log)
    && Coverage(st.snaps, log)
  }

  ghost predicate Assumptions(env: Env) {
    ZstdLaws(env) && ChunkInjective(env.hasher) && NodeInjective(env.hasher)
  }

  /** What a backup asks of its input: chunks that come back from the store, and no digest
      that is a leaf in one of the two compared trees and an inner hash in the other. */
  ghost predicate Suitable(env: Env, files: seq<SourceFile>, prev: Option<nat>, order: seq<Digest>) {
    && ReadableChunks(env, AllChunks(files))
    && (prev.Some? ==> Merkle.Unmasked(env.hasher, Digests(env.hasher, AllChunks(files)), order))
  }

  // ----- a new snapshot -----

  /** What a new row must bring along: a known parent of its source. */
  ghost predicate Addable(st: State, s: Snapshot) {
    s.parent.Some? ==> s.parent.value in st.snaps && st.snaps[s.parent.value].source == s.source
  }

  ghost predicate Extends(st: State, log: History, log': History) {
    && (forall j :: j in log.content ==> j in log'.content && log'.content[j] == log.content[j])
    && log'.content.Keys <= log.content.Keys + {st.nextId}
    && log.synthetic <= log'.synthetic <= log.synthetic + {st.nextId}
  }

  lemma AddNumbered(st: State, log: History, s: Snapshot, st': State, log': History)
    requires Numbered(st, log) && Addable(st, s) && Extends(st, log, log')
    requires st'.snaps == st.snaps[st.nextId := s] && st'.nextId == st.nextId + 1
    ensures Numbered(st', log')
  {
  }

  lemma AddParents(st: State, log: History, s: Snapshot)
    requires Numbered(st, log) && ParentsOfSameSource(st.snaps) && Addable(st, s)
    ensures ParentsOfSameSource(st.snaps[st.nextId := s])
  {
    var more := st.snaps[st.nextId := s];
    forall c, p | c in more && p in more && more[c].parent == Some(p)
      ensures more[p].source == more[c].source
    {
      assert p != st.nextId;
    }
  }

  lemma AddRows(snaps: Snapshots, id: nat, s: Snapshot)
    requires id !in snaps
    ensures AllRows(snaps[id := s]) == AllRows(snaps) + RowSet(s)
  {
    var more := snaps[id := s];
    forall d | d in AllRows(snaps) + RowSet(s)
      ensures d in AllRows(more)
    {
      if d in RowSet(s) {
        assert id in more && d in RowSet(more[id]);
      } else {
        var j :| j in snaps && d in RowSet(snaps[j]);
        assert j in more && d in RowSet(more[j]);
      }
    }
  }

  lemma AddManifested(H: Hasher, st: State, log: History, s: Snapshot, log': History)
    requires Numbered(st, log) && Manifested(H, st.snaps, log) && Intact(H, s) && Extends(st, log, log')
    requires st.nextId in log'.content && s.files == Manifest(H, log'.content[st.nextId])
    ensures Manifested(H, st.snaps[st.nextId := s], log')
  {
  }

  lemma AddCoverage(st: State, log: History, s: Snapshot, log': History)
    requires Numbered(st, log) && Coverage(st.snaps, log) && Extends(st, log, log')
    requires Covered(st.snaps[st.nextId := s], st.nextId, log'.synthetic)
    ensures Coverage(st.snaps[st.nextId := s], log')
  {
    forall j | j in st.snaps
      ensures Covered(st.snaps[st.nextId := s], j, log'.synthetic)
    {
      assert Covered(st.snaps, j, log.synthetic);
    }
  }

  /** A new snapshot keeps the invariant when it fits it. */
  lemma AddKeeps(env: Env, st: State, log: History, s: Snapshot, disk: Disk, st': State, log': History)
    requires Inv(env, st, log) && Extends(st, log, log')
    requires st' == st.(disk := disk, snaps := st.snaps[st.nextId := s], nextId := st.nextId + 1)
    requires Addable(st, s) && Intact(env.hasher, s)
    requires Faithful(env, disk) && disk.Keys <= AllRows(st.snaps) + RowSet(s)
    requires st.nextId in log'.content && s.files == Manifest(env.hasher, log'.content[st.nextId])
    requires Covered(st.snaps[st.nextId := s], st.nextId, log'.synthetic)
    ensures Inv(env, st', log')
  {
    assert Numbered(st', log') by { AddNumbered(st, log, s, st', log'); }
    assert ParentsOfSameSource(st'.snaps) by { AddParents(st, log, s); }
    assert NoLeaks(st') by { AddRows(st.snaps, st.nextId, s); }
    assert Manifested(env.hasher, st'.snaps, log') by { AddManifested(env.hasher, st, log, s, log'); }
    assert Coverage(st'.snaps, log') by { AddCoverage(st, log, s, log'); }
  }

  lemma BackupCoverage(st: State, s: Snapshot, prev: Option<nat>)
    requires prev.Some? ==> prev.value in st.snaps
    requires RowSet(s) == ManifestSet(s) - (if prev.Some? then RowSet(st.snaps[prev.value]) else {})
    ensures AllRows(st.snaps) + ManifestSet(s) == AllRows(st.snaps) + RowSet(s)
  {
    if prev.Some? {
      assert RowSet(st.snaps[prev.value]) <= AllRows(st.snaps);
    }
  }

  /** The rows, the manifest and the root of the snapshot a backup adds. */
  lemma BackupSnapshotFacts(env: Env, st: State, log: History, source: nat, files: seq<SourceFile>,
                            incremental: bool, prev: Option<nat>, order: seq<Digest>)
    requires Assumptions(env) && Numbered(st, log)
    requires Answers(st.snaps, source, incremental, prev, order) && Suitable(env, files, prev, order)
    ensures var s := BackupSnapshot(env, st, source, files, prev, order);
            && Addable(st, s) && Intact(env.hasher, s)
            && StoreAll(env, st.disk, AllChunks(files)).Keys == st.disk.Keys + ManifestSet(s)
            && AllRows(st.snaps) + ManifestSet(s) == AllRows(st.snaps) + RowSet(s)
            && Covered(st.snaps[st.nextId := s], st.nextId, log.synthetic)
  {
    var s := BackupSnapshot(env, st, source, files, prev, order);
    RowsAreNewDigests(env, st, source, files, prev, order);
    ManifestHashes(env.hasher, files);
    StoreAllKeys(env, st.disk, AllChunks(files));
    BackupCoverage(st, s, prev);
  }

  ghost function WithBackup(log: History, id: nat, files: seq<SourceFile>): History {
    log.(content := log.content[id := files])
  }

  /** A backup keeps the invariant, and exact accounting if it found it. */
  lemma BackupKeeps(env: Env, st: State, log: History, source: nat, files: seq<SourceFile>,
                    incremental: bool, prev: Option<nat>, order: seq<Digest>)
    requires Assumptions(env) && Inv(env, st, log)
    requires Answers(st.snaps, source, incremental, prev, order) && Suitable(env, files, prev, order)
    ensures var st' := Backup(env, st, source, files, prev, order);
            Inv(env, st', WithBackup(log, st.nextId, files)) && (Exact(st) ==> Exact(st'))
  {
    var s := BackupSnapshot(env, st, source, files, prev, order);
    BackupSnapshotFacts(env, st, log, source, files, incremental, prev, order);
    StoreAllFaithful(env, st.disk, AllChunks(files));
    AddKeeps(env, st, log, s, StoreAll(env, st.disk, AllChunks(files)),
             Backup(env, st, source, files, prev, order), WithBackup(log, st.nextId, files));
    AddRows(st.snaps, st.nextId, s);
  }

  /** Chunks that are not 128 hex digits, now and in the snapshot before, make a backup suitable. */
  lemma PlainContentIsSuitable(env: Env, st: State, log: History, files: seq<SourceFile>, prev: Option<nat>, order: seq<Digest>)
    requires Separated(env.hasher) && Inv(env, st, log)
    requires ReadableChunks(env, AllChunks(files)) && PlainChunks(AllChunks(files))
    requires prev.Some? ==> prev.value in st.snaps && multiset(order) == multiset(RowHashes(st.snaps[prev.value]))
    requires prev.Some? ==> prev.value in log.content && PlainChunks(AllChunks(log.content[prev.value]))
    ensures Suitable(env, files, prev, order)
  {
    if prev.Some? {
      var H, s := env.hasher, st.snaps[prev.value];
      assert Covered(st.snaps, prev.value, log.synthetic);
      OrderElements(s, order);
      ManifestHashes(H, log.content[prev.value]);
      PlainDigests(H, AllChunks(log.content[prev.value]));
      PlainDigests(H, AllChunks(files));
      Merkle.NodeValuesSubset(H, order, Digests(H, AllChunks(log.content[prev.value])));
      Merkle.PlainUnmasked(H, Digests(H, AllChunks(files)), order);
    }
  }

  ghost function WithSynthetic(log: History, id: nat, latest: nat): History
    requires latest in log.content
  {
    History(log.content[id := log.content[latest]], log.synthetic + {id})
  }

  lemma SyntheticSnapshotFacts(H: Hasher, st: State, latest: nat, synthetic: set<nat>)
    requires latest in st.snaps && Intact(H, st.snaps[latest])
    ensures var s := Maintenance.SyntheticSnapshot(H, st.snaps[latest], st.now);
            && Addable(st, s) && Intact(H, s) && RowSet(s) == {} && s.files == st.snaps[latest].files
            && Covered(st.snaps[st.nextId := s], st.nextId, synthetic + {st.nextId})
  {
    assert RowHashes(Maintenance.SyntheticSnapshot(H, st.snaps[latest], st.now)) == [];
  }

  /** A synthetic full keeps the invariant, and exact accounting if it found it. */
  lemma SynthesisKeeps(env: Env, st: State, log: History, source: nat, latest: nat)
    requires Inv(env, st, log) && IsLatest(st.snaps, source, Some(latest))
    requires Maintenance.Synthesize(env.hasher, st, Some(latest)).Ok?
    ensures latest in log.content
    ensures var st' := Maintenance.Synthesize(env.hasher, st, Some(latest)).value;
            Inv(env, st', WithSynthetic(log, st.nextId, latest)) && (Exact(st) ==> Exact(st'))
  {
    var s := Maintenance.SyntheticSnapshot(env.hasher, st.snaps[latest], st.now);
    var st' := Maintenance.Synthesize(env.hasher, st, Some(latest)).value;
    SyntheticSnapshotFacts(env.hasher, st, latest, log.synthetic);
    assert st' == st.(disk := st.disk, snaps := st.snaps[st.nextId := s], nextId := st.nextId + 1);
    AddRows(st.snaps, st.nextId, s);
    AddKeeps(env, st, log, s, st.disk, st', WithSynthetic(log, st.nextId, latest));
  }

  // ----- snapshots that go -----

  lemma DropCoverage(st: State, log: History, ids: set<nat>)
    requires Coverage(st.snaps, log)
    ensures Coverage(Pruner.Drop(st, ids).snaps, log)
  {
    forall id | id in Pruner.Drop(st, ids).snaps
      ensures Covered(Pruner.Drop(st, ids).snaps, id, log.synthetic)
    {
      assert Covered(st.snaps, id, log.synthetic);
    }
  }

  lemma DropStore(env: Env, st: State, ids: set<nat>)
    requires Faithful(env, st.disk)
    ensures Faithful(env, Pruner.Drop(st, ids).disk)
    ensures NoLeaks(st) ==> NoLeaks(Pruner.Drop(st, ids))
    ensures Exact(st) ==> Exact(Pruner.Drop(st, ids))
  {
    Pruner.AllRowsSplit(st.snaps, ids);
    FaithfulSubset(env, st.disk, Pruner.Drop(st, ids).disk);
  }

  lemma DropRows(env: Env, st: State, log: History, ids: set<nat>)
    requires Numbered(st, log) && ParentsOfSameSource(st.snaps) && Manifested(env.hasher, st.snaps, log)
    ensures var st' := Pruner.Drop(st, ids);
            Numbered(st', log) && ParentsOfSameSource(st'.snaps) && Manifested(env.hasher, st'.snaps, log)
  {
  }

  /** Deleting any snapshots, each followed by the GC loop, keeps the invariant and exact accounting. */
  lemma DropKeeps(env: Env, st: State, log: History, ids: set<nat>)
    requires Inv(env, st, log)
    ensures Inv(env, Pruner.Drop(st, ids), log) && (Exact(st) ==> Exact(Pruner.Drop(st, ids)))
  {
    DropStore(env, st, ids);
    DropRows(env, st, log, ids);
    DropCoverage(st, log, ids);
  }

  /** A prune pass keeps the invariant whether or not it completes. */
  lemma PruneKeeps(env: Env, fk: bool, st: State, log: History, choices: seq<Pruner.Choice>)
    requires Inv(env, st, log)
    ensures Inv(env, Pruner.Prune(fk, st, choices), log)
  {
    Pruner.PassReaches(fk, st, choices);
    DropKeeps(env, st, log, Pruner.Deleted(fk, st, choices));
  }

  /** It keeps exact accounting if and only if it is not stopped or what it deleted
      before names no chunk that the remaining snapshots do not name. */
  lemma PruneExactWhen(fk: bool, st: State, choices: seq<Pruner.Choice>)
    requires Exact(st)
    ensures Exact(Pruner.Prune(fk, st, choices)) <==> Pruner.Spares(fk, st, choices)
  {
    var gone := Pruner.Deleted(fk, st, choices);
    Pruner.PassReaches(fk, st, choices);
    Pruner.AllRowsSplit(st.snaps, gone);
    assert (Pruner.Drop(st, gone).disk.Keys == AllRows(st.snaps))
      <==> AllRows(Pruner.Picked(st.snaps, gone)) <= AllRows(st.snaps - gone);
  }

  // ----- snapshots that are only annotated -----

  /** Locks and verification results may differ, and nothing else. */
  ghost predicate SameRecord(s: Snapshot, t: Snapshot) {
    t == s.(lockedUntil := t.lockedUntil, lastVerified := t.lastVerified, passed := t.passed)
  }

  ghost predicate SameRecords(snaps: Snapshots, snaps': Snapshots) {
    snaps'.Keys == snaps.Keys && forall id :: id in snaps ==> SameRecord(snaps[id], snaps'[id])
  }

  lemma CheckAnnotates(H: Hasher, snaps: Snapshots, ids: set<nat>, now: int)
    ensures SameRecords(snaps, Maintenance.CheckSome(H, snaps, ids, now))
  {
  }

  lemma LockAnnotates(st: State, id: nat, until: Option<int>)
    ensures SameRecords(st.snaps, Maintenance.SetLock(st, id, until).snaps)
  {
  }

  lemma SameRowsSubset(a: Snapshots, b: Snapshots)
    requires forall id :: id in a ==> id in b && RowHashes(a[id]) == RowHashes(b[id])
    ensures AllRows(a) <= AllRows(b)
  {
    forall d | d in AllRows(a)
      ensures d in AllRows(b)
    {
      var id :| id in a && d in RowSet(a[id]);
      assert id in b && d in RowSet(b[id]);
    }
  }

  lemma AnnotationRows(snaps: Snapshots, snaps': Snapshots)
    requires SameRecords(snaps, snaps')
    ensures forall id :: id in snaps ==> RowHashes(snaps'[id]) == RowHashes(snaps[id])
    ensures AllRows(snaps') == AllRows(snaps)
  {
    forall id | id in snaps
      ensures RowHashes(snaps'[id]) == RowHashes(snaps[id])
    {
      assert SameRecord(snaps[id], snaps'[id]);
    }
    SameRowsSubset(snaps, snaps');
    SameRowsSubset(snaps', snaps);
  }

  lemma AnnotationCoverage(snaps: Snapshots, snaps': Snapshots, log: History)
    requires SameRecords(snaps, snaps') && Coverage(snaps, log)
    ensures Coverage(snaps', log)
  {
    AnnotationRows(snaps, snaps');
    forall id | id in snaps'
      ensures Covered(snaps', id, log.synthetic)
    {
      assert Covered(snaps, id, log.synthetic);
      assert SameRecord(snaps[id], snaps'[id]);
    }
  }

  lemma AnnotationManifested(H: Hasher, snaps: Snapshots, snaps': Snapshots, log: History)
    requires SameRecords(snaps, snaps') && Manifested(H, snaps, log)
    requires forall id :: id in snaps' ==> snaps'[id].passed != Some(false)
    ensures Manifested(H, snaps', log)
  {
    forall id | id in snaps'
      ensures Intact(H, snaps'[id]) && snaps'[id].files == snaps[id].files
    {
      assert SameRecord(snaps[id], snaps'[id]);
      assert Intact(H, snaps[id]);
    }
  }

  lemma AnnotationNumbers(st: State, snaps': Snapshots, log: History)
    requires SameRecords(st.snaps, snaps') && ParentsOfSameSource(st.snaps) && Numbered(st, log)
    ensures ParentsOfSameSource(snaps') && Numbered(st.(snaps := snaps'), log)
  {
    forall id | id in snaps'
      ensures snaps'[id].source == st.snaps[id].source && snaps'[id].parent == st.snaps[id].parent
    {
      assert SameRecord(st.snaps[id], snaps'[id]);
    }
  }

  lemma AnnotationKeeps(env: Env, st: State, log: History, snaps': Snapshots)
    requires Inv(env, st, log) && SameRecords(st.snaps, snaps')
    requires forall id :: id in snaps' ==> snaps'[id].passed != Some(false)
    ensures Inv(env, st.(snaps := snaps'), log) && (Exact(st) ==> Exact(st.(snaps := snaps')))
  {
    AnnotationNumbers(st, snaps', log);
    AnnotationRows(st.snaps, snaps');
    AnnotationManifested(env.hasher, st.snaps, snaps', log);
    AnnotationCoverage(st.snaps, snaps', log);
  }

  /** In a state that keeps the invariant every integrity check passes. */
  lemma IntegrityPasses(env: Env, st: State, log: History, ids: set<nat>)
    requires Inv(env, st, log)
    ensures var checked := Maintenance.CheckSome(env.hasher, st.snaps, ids, st.now);
            && SameRecords(st.snaps, checked)
            && (forall id :: id in st.snaps ==> checked[id].passed != Some(false))
            && (forall id :: id in st.snaps && id in ids && st.snaps[id].files != [] ==>
                  checked[id].passed == Some(true) && checked[id].lastVerified == Some(st.now))
  {
    forall id | id in st.snaps
      ensures Intact(env.hasher, st.snaps[id])
    {
    }
  }

  // ----- what a restore returns -----

  /** The directory a list of files describes; for distinct paths, exactly its (path, bytes) pairs. */
  function Directory(files: seq<SourceFile>): map<string, Bytes>
    decreases |files|
  {
    if files == [] then map[] else
      var k := |files| - 1;
      Directory(files[..k])[files[k].path := files[k].data]
  }

  lemma {:induction false} DirectoryKeys(files: seq<SourceFile>, path: string)
    ensures path in Directory(files) <==> exists i :: 0 <= i < |files| && files[i].path == path
    decreases |files|
  {
    if files == [] {
    } else {
      DirectoryKeys(files[..|files| - 1], path);
    }
  }

  lemma {:induction false} DirectoryOfDistinct(files: seq<SourceFile>)
    requires forall i, j :: 0 <= i < j < |files| ==> files[i].path != files[j].path
    ensures forall i :: 0 <= i < |files| ==> files[i].path in Directory(files) && Directory(files)[files[i].path] == files[i].data
    ensures |Directory(files)| == |files|
    decreases |files|
  {
    if files == [] {
    } else {
      var k := |files| - 1;
      DirectoryOfDistinct(files[..k]);
      DirectoryKeys(files[..k], files[k].path);
      assert Directory(files).Keys == Directory(files[..k]).Keys + {files[k].path};
      assert forall i :: 0 <= i < k ==> files[..k][i] == files[i];
    }
  }

  lemma {:induction false} ReassembleChunks(env: Env, disk: Disk, chunks: seq<Bytes>)
    requires ChunkInjective(env.hasher) && Faithful(env, disk)
    requires Elements(Digests(env.hasher, chunks)) <= disk.Keys
    ensures RestoreWorker.Reassemble(env, disk, Digests(env.hasher, chunks)) == Ok(Flatten(chunks))
    decreases |chunks|
  {
    if chunks == [] {
    } else {
      var k := |chunks| - 1;
      var H := env.hasher;
      assert chunks == chunks[..k] + [chunks[k]];
      DigestsSnoc(H, chunks[..k], chunks[k]);
      assert Digests(H, chunks)[..k] == Digests(H, chunks[..k]);
      ReassembleChunks(env, disk, chunks[..k]);
      FetchByContent(env, disk, chunks[k]);
      FlattenSnoc(chunks[..k], chunks[k]);
    }
  }

  lemma {:induction false} WriteManifest(env: Env, disk: Disk, files: seq<SourceFile>)
    requires ChunkInjective(env.hasher) && Faithful(env, disk)
    requires Elements(AllHashes(Manifest(env.hasher, files))) <= disk.Keys
    ensures RestoreWorker.WriteFiles(env, disk, Manifest(env.hasher, files)) == Ok(Directory(files))
    decreases |files|
  {
    if files == [] {
    } else {
      var k := |files| - 1;
      var H := env.hasher;
      var front := Manifest(H, files[..k]);
      assert Manifest(H, files) == front + [Record(H, files[k])];
      RestoreWorker.AllHashesSnoc(front, Record(H, files[k]));
      ElementsAppend(AllHashes(front), Record(H, files[k]).hashes);
      assert Manifest(H, files)[..k] == front;
      WriteManifest(env, disk, files[..k]);
      ReassembleChunks(env, disk, Cdc.Chunks(files[k].data));
      Cdc.ChunksPartition(files[k].data);
    }
  }

  function FilesAt(files: seq<SourceFile>, path: string): seq<SourceFile>
    decreases |files|
  {
    if files == [] then [] else
      var k := |files| - 1;
      FilesAt(files[..k], path) + if files[k].path == path then [files[k]] else []
  }

  lemma ManifestHashesSnoc(H: Hasher, files: seq<SourceFile>, f: SourceFile)
    ensures Manifest(H, files + [f]) == Manifest(H, files) + [Record(H, f)]
    ensures Elements(AllHashes(Manifest(H, files + [f]))) == Elements(AllHashes(Manifest(H, files))) + Elements(Record(H, f).hashes)
  {
    assert Manifest(H, files + [f]) == Manifest(H, files) + [Record(H, f)];
    RestoreWorker.AllHashesSnoc(Manifest(H, files), Record(H, f));
    ElementsAppend(AllHashes(Manifest(H, files)), Record(H, f).hashes);
  }

  lemma {:induction false} SelectManifest(H: Hasher, files: seq<SourceFile>, path: string)
    ensures RestoreWorker.WithPath(Manifest(H, files), path) == Manifest(H, FilesAt(files, path))
    ensures Elements(AllHashes(Manifest(H, FilesAt(files, path)))) <= Elements(AllHashes(Manifest(H, files)))
    decreases |files|
  {
    if files == [] {
    } else {
      var k := |files| - 1;
      SelectManifest(H, files[..k], path);
      assert files == files[..k] + [files[k]];
      ManifestHashesSnoc(H, files[..k], files[k]);
      assert Manifest(H, files)[..k] == Manifest(H, files[..k]);
      if files[k].path == path {
        ManifestHashesSnoc(H, FilesAt(files[..k], path), files[k]);
      } else {
        assert FilesAt(files, path) == FilesAt(files[..k], path);
        assert RestoreWorker.WithPath(Manifest(H, files), path) == RestoreWorker.WithPath(Manifest(H, files[..k]), path);
      }
    }
  }

  lemma DirectorySnoc(files: seq<SourceFile>, f: SourceFile)
    ensures Directory(files + [f]) == Directory(files)[f.path := f.data]
  {
    assert (files + [f])[..|files|] == files;
  }

  lemma {:induction false} DirectoryAt(files: seq<SourceFile>, path: string)
    ensures FilesAt(files, path) == [] <==> path !in Directory(files)
    ensures path in Directory(files) ==> Directory(FilesAt(files, path)) == map[path := Directory(files)[path]]
    decreases |files|
  {
    if files == [] {
    } else {
      var k := |files| - 1;
      var front := FilesAt(files[..k], path);
      DirectoryAt(files[..k], path);
      if files[k].path == path {
        DirectorySnoc(front, files[k]);
        assert Directory(front) == if front == [] then map[] else map[path := Directory(files[..k])[path]];
        assert Directory(front)[path := files[k].data] == map[path := files[k].data];
      } else {
        assert FilesAt(files, path) == front;
      }
    }
  }

  lemma OwnRowsOnDisk(st: State, id: nat)
    requires Exact(st) && id in st.snaps
    ensures RowSet(st.snaps[id]) <= st.disk.Keys
  {
    assert forall d :: d in RowSet(st.snaps[id]) ==> d in AllRows(st.snaps);
  }

  lemma ManifestOnDisk(env: Env, st: State, log: History, id: nat)
    requires Inv(env, st, log) && Exact(st) && id in st.snaps && id !in log.synthetic
    requires st.snaps[id].parent.Some? ==> st.snaps[id].parent.value in st.snaps
    ensures st.snaps[id].files == Manifest(env.hasher, log.content[id])
    ensures Elements(AllHashes(Manifest(env.hasher, log.content[id]))) <= st.disk.Keys
    ensures Intact(env.hasher, st.snaps[id])
  {
    assert Covered(st.snaps, id, log.synthetic);
    OwnRowsOnDisk(st, id);
    if st.snaps[id].parent.Some? {
      OwnRowsOnDisk(st, st.snaps[id].parent.value);
    }
  }

  lemma RestoresOnePath(env: Env, st: State, files: seq<SourceFile>, id: nat, path: string)
    requires ChunkInjective(env.hasher) && Faithful(env, st.disk) && id in st.snaps && files != []
    requires st.snaps[id].files == Manifest(env.hasher, files)
    requires Elements(AllHashes(Manifest(env.hasher, files))) <= st.disk.Keys
    ensures RestoreWorker.Restore(env, st, id, Some(path)) ==
              if path in Directory(files) then Ok(map[path := Directory(files)[path]])
              else Err(RestoreWorker.FileNotInSnapshot)
  {
    SelectManifest(env.hasher, files, path);
    DirectoryAt(files, path);
    WriteManifest(env, st.disk, FilesAt(files, path));
  }

  /** Safety in one state: a worker-made snapshot without a missing parent restores
      to exactly the files it was taken from, as a whole or one path at a time. */
  lemma RestoresExactly(env: Env, st: State, log: History, id: nat)
    requires Assumptions(env) && Inv(env, st, log) && Exact(st)
    requires id in st.snaps && id !in log.synthetic && log.content[id] != []
    requires st.snaps[id].parent.Some? ==> st.snaps[id].parent.value in st.snaps
    ensures RestoreWorker.Restore(env, st, id, None) == Ok(Directory(log.content[id]))
    ensures forall path :: RestoreWorker.Restore(env, st, id, Some(path)) ==
              if path in Directory(log.content[id]) then Ok(map[path := Directory(log.content[id])[path]])
              else Err(RestoreWorker.FileNotInSnapshot)
  {
    ManifestOnDisk(env, st, log, id);
    WriteManifest(env, st.disk, log.content[id]);
    forall path {
      RestoresOnePath(env, st, log.content[id], id, path);
    }
  }

  /** A snapshot without files restores to one empty blob, not to an empty directory. */
  lemma EmptySourceRestoresBlob(env: Env, st: State, log: History, id: nat)
    requires Inv(env, st, log) && id in st.snaps && log.content[id] == []
    ensures RestoreWorker.Restore(env, st, id, None) == Ok(map[RestoreWorker.BlobName(id) := []])
    ensures RestoreWorker.Restore(env, st, id, None) != Ok(Directory(log.content[id]))
  {
    assert Covered(st.snaps, id, log.synthetic);
    assert AllHashes(st.snaps[id].files) == [];
    assert ManifestSet(st.snaps[id]) == {};
    NoElements(RowHashes(st.snaps[id]));
    assert Intact(env.hasher, st.snaps[id]);
    var blob: RestoreWorker.Tree := map[RestoreWorker.BlobName(id) := []];
    assert RestoreWorker.BlobName(id) in blob;
  }

  lemma {:induction false} ReassembleWhen(env: Env, disk: Disk, hashes: seq<Digest>)
    requires Faithful(env, disk)
    ensures RestoreWorker.Reassemble(env, disk, hashes).Ok? <==> Elements(hashes) <= disk.Keys
    decreases |hashes|
  {
    if hashes == [] {
    } else {
      var k := |hashes| - 1;
      ReassembleWhen(env, disk, hashes[..k]);
      assert hashes == hashes[..k] + [hashes[k]];
      ElementsAppend(hashes[..k], [hashes[k]]);
      assert Elements([hashes[k]]) == {hashes[k]};
    }
  }

  lemma {:induction false} WriteWhen(env: Env, disk: Disk, records: seq<FileRecord>)
    requires Faithful(env, disk)
    ensures RestoreWorker.WriteFiles(env, disk, records).Ok? <==> Elements(AllHashes(records)) <= disk.Keys
    decreases |records|
  {
    if records == [] {
      assert AllHashes(records) == [];
    } else {
      var k := |records| - 1;
      WriteWhen(env, disk, records[..k]);
      assert records == records[..k] + [records[k]];
      RestoreWorker.AllHashesSnoc(records[..k], records[k]);
      ElementsAppend(AllHashes(records[..k]), records[k].hashes);
      ReassembleWhen(env, disk, records[k].hashes);
    }
  }

  lemma RestoreNeedsChunks(env: Env, st: State, id: nat)
    requires Faithful(env, st.disk) && id in st.snaps && st.snaps[id].files != []
    requires !(Elements(AllHashes(st.snaps[id].files)) <= st.disk.Keys)
    ensures RestoreWorker.Restore(env, st, id, None).Err?
  {
    WriteWhen(env, st.disk, st.snaps[id].files);
  }

  /** Any snapshot with files, worker-made or synthetic, restores if and only if its whole
      manifest is on disk, and then to exactly the files it stands for. */
  lemma RestoresWhen(env: Env, st: State, log: History, id: nat)
    requires Assumptions(env) && Inv(env, st, log) && id in st.snaps && log.content[id] != []
    ensures var r := RestoreWorker.Restore(env, st, id, None);
            && (r == Ok(Directory(log.content[id])) <==> forall d :: d in AllHashes(st.snaps[id].files) ==> d in st.disk)
            && (r.Ok? ==> r == Ok(Directory(log.content[id])))
  {
    WriteWhen(env, st.disk, st.snaps[id].files);
    assert Intact(env.hasher, st.snaps[id]);
    assert forall d :: d in AllHashes(st.snaps[id].files) <==> d in Elements(AllHashes(st.snaps[id].files));
    if Elements(AllHashes(st.snaps[id].files)) <= st.disk.Keys {
      WriteManifest(env, st.disk, log.content[id]);
    }
  }

  /** At the moment of synthesis the synthetic full restores like the snapshot it copies. */
  lemma SyntheticRestoresSame(env: Env, st: State, log: History, source: nat, latest: nat, filePath: Option<string>)
    requires Inv(env, st, log) && IsLatest(st.snaps, source, Some(latest)) && st.snaps[latest].files != []
    ensures var st' := Maintenance.Synthesize(env.hasher, st, Some(latest)).value;
            && st'.snaps[st.nextId].root == st.snaps[latest].root
            && RestoreWorker.Restore(env, st', st.nextId, filePath) == RestoreWorker.Restore(env, st, latest, filePath)
  {
    assert Intact(env.hasher, st.snaps[latest]);
  }
}
