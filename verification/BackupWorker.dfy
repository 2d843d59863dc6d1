/** The backup job: app/workers/backup_worker.py, steps 2 to 6. */
module BackupWorker {
  import opened Basics
  import opened Hashing
  import opened Cas
  import opened Records
  import Cdc
  import Merkle

  // ----- what a job computes -----

  function AllChunks(files: seq<SourceFile>): seq<Bytes> {
    Flatten(Map((f: SourceFile) => Cdc.Chunks(f.data), files))
  }

  function Digests(H: Hasher, chunks: seq<Bytes>): (digests: seq<Digest>)
    ensures |digests| == |chunks|
  {
    Map(H.chunk, chunks)
  }

  function Record(H: Hasher, f: SourceFile): FileRecord {
    FileRecord(f.path, |f.data|, Digests(H, Cdc.Chunks(f.data)))
  }

  /** Every file with exactly its own chunk digests. */
  function Manifest(H: Hasher, files: seq<SourceFile>): (records: seq<FileRecord>)
    ensures |records| == |files|
  {
    Map(f => Record(H, f), files)
  }

  function TotalBytes(chunks: seq<Bytes>): nat {
    SumNat(Map((c: Bytes) => |c|, chunks))
  }

  function StoreAll(env: Env, disk: Disk, chunks: seq<Bytes>): Disk
    decreases |chunks|
  {
    if chunks == [] then disk else
      var k := |chunks| - 1;
      Stored(env, StoreAll(env, disk, chunks[..k]), chunks[k], env.entropyOf(chunks[k]))
  }

  /** Raw bytes of the chunks that were not on disk when their turn came. */
  function NewBytes(env: Env, disk: Disk, chunks: seq<Bytes>): nat
    decreases |chunks|
  {
    if chunks == [] then 0 else
      var k := |chunks| - 1;
      NewBytes(env, disk, chunks[..k])
      + if env.hasher.chunk(chunks[k]) in StoreAll(env, disk, chunks[..k]) then 0 else |chunks[k]|
  }

  /** The digests that get rows: all of them, or the Merkle diff against the previous rows. */
  function NewHashes(H: Hasher, digests: seq<Digest>, previous: Option<seq<Digest>>): set<Digest> {
    match previous
    case None => Elements(digests)
    case Some(rows) => Elements(Merkle.Diff(Merkle.Build(H, digests), Merkle.Build(H, rows)))
  }

  function Row(env: Env, disk: Disk, chunk: Bytes): ChunkRow {
    var d := env.hasher.chunk(chunk);
    ChunkRow(d, |chunk|, if d in disk then |disk[d]| else 0, env.entropyOf(chunk))
  }

  function RowsFor(env: Env, disk: Disk, chunks: seq<Bytes>, wanted: set<Digest>): seq<ChunkRow>
    decreases |chunks|
  {
    if chunks == [] then [] else
      var k := |chunks| - 1;
      RowsFor(env, disk, chunks[..k], wanted)
      + if env.hasher.chunk(chunks[k]) in wanted then [Row(env, disk, chunks[k])] else []
  }

  /** `order` is the previous snapshot's row hashes in whatever order the database returned them. */
  function BackupSnapshot(env: Env, st: State, source: nat, files: seq<SourceFile>, prev: Option<nat>, order: seq<Digest>): Snapshot {
    var chunks := AllChunks(files);
    var digests := Digests(env.hasher, chunks);
    var disk := StoreAll(env, st.disk, chunks);
    var wanted := NewHashes(env.hasher, digests, if prev.Some? then Some(order) else None);
    Snapshot(source, Merkle.Root(env.hasher, digests), prev,
             TotalBytes(chunks), NewBytes(env, st.disk, chunks), |digests|, |wanted|,
             st.now, None, None, None,
             Manifest(env.hasher, files), RowsFor(env, disk, chunks, wanted))
  }

  function Backup(env: Env, st: State, source: nat, files: seq<SourceFile>, prev: Option<nat>, order: seq<Digest>): State {
    st.(disk := StoreAll(env, st.disk, AllChunks(files)),
        snaps := st.snaps[st.nextId := BackupSnapshot(env, st, source, files, prev, order)],
        nextId := st.nextId + 1)
  }

  /** The answers the two queries of an incremental job may give; a full job asks neither. */
  ghost predicate Answers(snaps: Snapshots, source: nat, incremental: bool, prev: Option<nat>, order: seq<Digest>) {
    && (if incremental then IsLatest(snaps, source, prev) else prev.None?)
    && (if prev.Some? then multiset(order) == multiset(RowHashes(snaps[prev.value])) else order == [])
  }

  // ----- the job itself -----

  lemma AllChunksSnoc(files: seq<SourceFile>, f: SourceFile)
    ensures AllChunks(files + [f]) == AllChunks(files) + Cdc.Chunks(f.data)
  {
    var chunksOf := (f: SourceFile) => Cdc.Chunks(f.data);
    assert Map(chunksOf, files + [f]) == Map(chunksOf, files) + [Cdc.Chunks(f.data)];
    FlattenSnoc(Map(chunksOf, files), Cdc.Chunks(f.data));
  }

  method CollectFiles(chunker: Cdc.CDCChunker, files: seq<SourceFile>)
    returns (allChunks: seq<Bytes>, fileManifest: seq<(SourceFile, seq<Bytes>)>)
    requires chunker.Valid()
    ensures allChunks == AllChunks(files)
    ensures |fileManifest| == |files|
    ensures forall i :: 0 <= i < |files| ==> fileManifest[i] == (files[i], Cdc.Chunks(files[i].data))
  {
    allChunks, fileManifest := [], [];
    for i := 0 to |files|
      invariant allChunks == AllChunks(files[..i])
      invariant |fileManifest| == i
      invariant forall k :: 0 <= k < i ==> fileManifest[k] == (files[k], Cdc.Chunks(files[k].data))
    {
      var fileChunks := chunker.ChunkData(files[i].data);
      AllChunksSnoc(files[..i], files[i]);
      assert files[..i + 1] == files[..i] + [files[i]];
      allChunks := allChunks + fileChunks;
      fileManifest := fileManifest + [(files[i], fileChunks)];
    }
    assert files[..|files|] == files;
  }

  /** The parallel lists describe the chunks, given what is on disk. */
  ghost predicate Columns(env: Env, disk: Disk, chunks: seq<Bytes>,
                          hashes: seq<Digest>, sizes: seq<nat>, storedSizes: seq<nat>, entropies: seq<real>)
  {
    && |hashes| == |sizes| == |storedSizes| == |entropies| == |chunks|
    && forall i :: 0 <= i < |chunks| ==>
         && hashes[i] in disk
         && ChunkRow(hashes[i], sizes[i], storedSizes[i], entropies[i]) == Row(env, disk, chunks[i])
  }

  lemma ColumnsSnoc(env: Env, disk: Disk, disk': Disk, chunks: seq<Bytes>, c: Bytes,
                    hashes: seq<Digest>, sizes: seq<nat>, storedSizes: seq<nat>, entropies: seq<real>)
    requires Columns(env, disk, chunks, hashes, sizes, storedSizes, entropies)
    requires disk' == Stored(env, disk, c, env.entropyOf(c))
    ensures env.hasher.chunk(c) in disk'
    ensures Columns(env, disk', chunks + [c], hashes + [env.hasher.chunk(c)], sizes + [|c|],
                    storedSizes + [|disk'[env.hasher.chunk(c)]|], entropies + [env.entropyOf(c)])
  {
    forall i | 0 <= i < |chunks|
      ensures hashes[i] in disk' && Row(env, disk', chunks[i]) == Row(env, disk, chunks[i])
    {
      assert hashes[i] == Row(env, disk, chunks[i]).hash;
    }
  }

  /** `sum(s for s, is_new in zip(sizes, flags) if is_new)` */
  function SumWhere(sizes: seq<nat>, flags: seq<bool>): nat
    requires |sizes| == |flags|
  {
    if sizes == [] then 0 else
      var k := |sizes| - 1;
      SumWhere(sizes[..k], flags[..k]) + if flags[k] then sizes[k] else 0
  }

  /** Step 3, with the parallel lists the later steps zip together. */
  method StoreChunks(cas: CASStore, chunks: seq<Bytes>)
    returns (hashes: seq<Digest>, sizes: seq<nat>, storedSizes: seq<nat>, isNew: seq<bool>, entropies: seq<real>)
    modifies cas
    ensures cas.files == StoreAll(cas.env, old(cas.files), chunks)
    ensures Columns(cas.env, cas.files, chunks, hashes, sizes, storedSizes, entropies)
    ensures |isNew| == |sizes| && SumWhere(sizes, isNew) == NewBytes(cas.env, old(cas.files), chunks)
  {
    hashes, sizes, storedSizes, isNew, entropies := [], [], [], [], [];
    ghost var start := cas.files;
    for i := 0 to |chunks|
      invariant cas.files == StoreAll(cas.env, start, chunks[..i])
      invariant Columns(cas.env, cas.files, chunks[..i], hashes, sizes, storedSizes, entropies)
      invariant |isNew| == i && SumWhere(sizes, isNew) == NewBytes(cas.env, start, chunks[..i])
    {
      assert chunks[..i + 1][..i] == chunks[..i];
      assert chunks[..i + 1] == chunks[..i] + [chunks[i]];
      ghost var disk := cas.files;
      var entropy := cas.env.entropyOf(chunks[i]);
      var digest, new', stored := cas.Store(chunks[i], Some(entropy));
      ColumnsSnoc(cas.env, disk, cas.files, chunks[..i], chunks[i], hashes, sizes, storedSizes, entropies);
      hashes, sizes, storedSizes := hashes + [digest], sizes + [|chunks[i]|], storedSizes + [stored];
      isNew, entropies := isNew + [new'], entropies + [entropy];
    }
    assert chunks[..|chunks|] == chunks;
  }

  lemma ColumnsAgree(env: Env, disk: Disk, chunks: seq<Bytes>,
                     hashes: seq<Digest>, sizes: seq<nat>, storedSizes: seq<nat>, entropies: seq<real>)
    requires Columns(env, disk, chunks, hashes, sizes, storedSizes, entropies)
    ensures hashes == Digests(env.hasher, chunks) && SumNat(sizes) == TotalBytes(chunks)
  {
    forall i | 0 <= i < |chunks|
      ensures hashes[i] == env.hasher.chunk(chunks[i]) && sizes[i] == |chunks[i]|
    {
      assert hashes[i] == Row(env, disk, chunks[i]).hash && sizes[i] == Row(env, disk, chunks[i]).size;
    }
    assert sizes == Map((c: Bytes) => |c|, chunks);
  }

  method TakeHashes(hashes: seq<Digest>, start: nat, fileChunks: seq<Bytes>) returns (fileHashes: seq<Digest>, offset: nat)
    requires start + |fileChunks| <= |hashes|
    ensures offset == start + |fileChunks| && fileHashes == hashes[start..offset]
  {
    fileHashes, offset := [], start;
    for k := 0 to |fileChunks|
      invariant offset == start + k && fileHashes == hashes[start..offset]
    {
      fileHashes := fileHashes + [hashes[offset]];
      offset := offset + 1;
    }
  }

  lemma DigestSlice(H: Hasher, a: seq<Bytes>, b: seq<Bytes>, c: seq<Bytes>)
    ensures Digests(H, a + b + c)[|a|..|a| + |b|] == Digests(H, b)
  {
  }

  lemma AllChunksAppend(a: seq<SourceFile>, b: seq<SourceFile>)
    ensures AllChunks(a + b) == AllChunks(a) + AllChunks(b)
  {
    var chunksOf := (f: SourceFile) => Cdc.Chunks(f.data);
    assert Map(chunksOf, a + b) == Map(chunksOf, a) + Map(chunksOf, b);
    FlattenAppend(Map(chunksOf, a), Map(chunksOf, b));
  }

  lemma FileSlice(H: Hasher, files: seq<SourceFile>, i: nat)
    requires i < |files|
    ensures AllChunks(files[..i + 1]) == AllChunks(files[..i]) + Cdc.Chunks(files[i].data)
    ensures AllChunks(files[..i + 1]) <= AllChunks(files)
    ensures var lo := |AllChunks(files[..i])|;
            Digests(H, AllChunks(files))[lo..lo + |Cdc.Chunks(files[i].data)|] == Digests(H, Cdc.Chunks(files[i].data))
  {
    assert files[..i + 1] == files[..i] + [files[i]];
    AllChunksSnoc(files[..i], files[i]);
    AllChunksAppend(files[..i + 1], files[i + 1..]);
    assert files == files[..i + 1] + files[i + 1..];
    DigestSlice(H, AllChunks(files[..i]), Cdc.Chunks(files[i].data), AllChunks(files[i + 1..]));
  }

  lemma ManifestSnoc(H: Hasher, files: seq<SourceFile>, i: nat)
    requires i < |files|
    ensures Manifest(H, files[..i + 1]) == Manifest(H, files[..i]) + [Record(H, files[i])]
  {
  }

  /** Step 6a: the flat hash list is cut up again by a running offset. */
  method SliceManifest(H: Hasher, files: seq<SourceFile>, fileManifest: seq<(SourceFile, seq<Bytes>)>, hashes: seq<Digest>)
    returns (records: seq<FileRecord>)
    requires |fileManifest| == |files|
    requires forall i :: 0 <= i < |files| ==> fileManifest[i] == (files[i], Cdc.Chunks(files[i].data))
    requires hashes == Digests(H, AllChunks(files))
    ensures records == Manifest(H, files)
  {
    records := [];
    var offset := 0;
    for i := 0 to |files|
      invariant records == Manifest(H, files[..i])
      invariant offset == |AllChunks(files[..i])| <= |hashes|
    {
      var (file, fileChunks) := fileManifest[i];
      FileSlice(H, files, i);
      ManifestSnoc(H, files, i);
      var fileHashes: seq<Digest>;
      fileHashes, offset := TakeHashes(hashes, offset, fileChunks);
      records := records + [FileRecord(file.path, |file.data|, fileHashes)];
    }
    assert files[..|files|] == files;
  }

  /** Step 6b: rows only for the digests in `wanted`. */
  method WriteRows(env: Env, ghost disk: Disk, ghost chunks: seq<Bytes>, wanted: set<Digest>,
                   hashes: seq<Digest>, sizes: seq<nat>, storedSizes: seq<nat>, entropies: seq<real>)
    returns (rows: seq<ChunkRow>)
    requires Columns(env, disk, chunks, hashes, sizes, storedSizes, entropies)
    ensures rows == RowsFor(env, disk, chunks, wanted)
  {
    rows := [];
    for i := 0 to |hashes|
      invariant rows == RowsFor(env, disk, chunks[..i], wanted)
    {
      assert chunks[..i + 1][..i] == chunks[..i];
      assert hashes[i] == Row(env, disk, chunks[i]).hash;
      if hashes[i] !in wanted {
        continue;
      }
      rows := rows + [ChunkRow(hashes[i], sizes[i], storedSizes[i], entropies[i])];
    }
    assert chunks[..|chunks|] == chunks;
  }

  method QueryRowHashes(s: Snapshot) returns (hashes: seq<Digest>)
    ensures multiset(hashes) == multiset(RowHashes(s))
  {
    hashes := RowHashes(s);
  }

  /** Step 4: which digests are new against the latest snapshot's rows. */
  method FindNewHashes(db: Database, source: nat, incremental: bool, hashes: seq<Digest>, tree: Merkle.Tree)
    returns (newHashes: set<Digest>, prev: Option<nat>, order: seq<Digest>)
    requires tree == Merkle.Build(db.cas.env.hasher, hashes)
    ensures Answers(db.snaps, source, incremental, prev, order)
    ensures newHashes == NewHashes(db.cas.env.hasher, hashes, if prev.Some? then Some(order) else None)
  {
    prev, order := None, [];
    if incremental {
      prev := db.QueryLatest(source);
    }
    if prev.Some? {
      var prevRows := QueryRowHashes(db.snaps[prev.value]);
      order := prevRows;
      var prevTree := Merkle.BuildTree(db.cas.env.hasher, prevRows);
      var diff := Merkle.DiffTrees(tree, prevTree);
      newHashes := Elements(diff);
    } else {
      newHashes := Elements(hashes);
    }
  }

  method RunBackup(db: Database, chunker: Cdc.CDCChunker, source: nat, files: seq<SourceFile>, incremental: bool)
    returns (id: nat, ghost prev: Option<nat>, ghost order: seq<Digest>)
    requires chunker.Valid()
    modifies db, db.cas
    ensures id == old(db.nextId)
    ensures Answers(old(db.snaps), source, incremental, prev, order)
    ensures db.Current() == Backup(db.cas.env, old(db.Current()), source, files, prev, order)
  {
    var H := db.cas.env.hasher;
    var allChunks, fileManifest := CollectFiles(chunker, files);
    var hashes, sizes, storedSizes, isNew, entropies := StoreChunks(db.cas, allChunks);
    ColumnsAgree(db.cas.env, db.cas.files, allChunks, hashes, sizes, storedSizes, entropies);
    var tree := Merkle.BuildTree(H, hashes);
    var newHashes, prevSnapshot, answer := FindNewHashes(db, source, incremental, hashes, tree);
    prev, order := prevSnapshot, answer;
    var records := SliceManifest(H, files, fileManifest, hashes);
    var rows := WriteRows(db.cas.env, db.cas.files, allChunks, newHashes, hashes, sizes, storedSizes, entropies);
    var snapshot := Snapshot(source, Merkle.RootHash(H, tree), prevSnapshot,
                             SumNat(sizes), SumWhere(sizes, isNew), |hashes|, |newHashes|,
                             db.now, None, None, None, records, rows);
    id := db.nextId;
    db.snaps := db.snaps[id := snapshot];
    db.nextId := id + 1;
  }
}
