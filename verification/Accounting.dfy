/** What one backup does to the chunk store and to the rows: the facts that tie
    app/workers/backup_worker.py to app/core/cas.py and app/core/merkle.py. */
module Accounting {
  import opened Basics
  import opened Hashing
  import opened Cas
  import opened Records
  import opened BackupWorker
  import Cdc
  import Merkle
  import RestoreWorker

  /** Chunks that come back from the store once a backup has put them there. */
  ghost predicate ReadableChunks(env: Env, chunks: seq<Bytes>) {
    forall c :: c in chunks ==> Readable(env, c, env.entropyOf(c))
  }

  /** Chunks that cannot pass for an inner tree node. */
  ghost predicate PlainChunks(chunks: seq<Bytes>) {
    forall c :: c in chunks ==> !HexPair(c)
  }

  // ----- the chunk store -----

  lemma DigestsSnoc(H: Hasher, chunks: seq<Bytes>, c: Bytes)
    ensures Digests(H, chunks + [c]) == Digests(H, chunks) + [H.chunk(c)]
    ensures Elements(Digests(H, chunks + [c])) == Elements(Digests(H, chunks)) + {H.chunk(c)}
  {
    assert Digests(H, chunks + [c]) == Digests(H, chunks) + [H.chunk(c)];
    ElementsAppend(Digests(H, chunks), [H.chunk(c)]);
    assert Elements([H.chunk(c)]) == {H.chunk(c)};
  }

  lemma {:induction false} StoreAllKeys(env: Env, disk: Disk, chunks: seq<Bytes>)
    ensures StoreAll(env, disk, chunks).Keys == disk.Keys + Elements(Digests(env.hasher, chunks))
    ensures forall d :: d in disk ==> StoreAll(env, disk, chunks)[d] == disk[d]
    decreases |chunks|
  {
    if chunks == [] {
    } else {
      var k := |chunks| - 1;
      StoreAllKeys(env, disk, chunks[..k]);
      DigestsSnoc(env.hasher, chunks[..k], chunks[k]);
      assert chunks == chunks[..k] + [chunks[k]];
    }
  }

  lemma {:induction false} StoreAllFaithful(env: Env, disk: Disk, chunks: seq<Bytes>)
    requires ZstdLaws(env) && Faithful(env, disk) && ReadableChunks(env, chunks)
    ensures Faithful(env, StoreAll(env, disk, chunks))
    decreases |chunks|
  {
    if chunks == [] {
    } else {
      var k := |chunks| - 1;
      assert forall c :: c in chunks[..k] ==> c in chunks;
      StoreAllFaithful(env, disk, chunks[..k]);
      assert chunks[k] in chunks;
      StoredFaithful(env, StoreAll(env, disk, chunks[..k]), chunks[k], env.entropyOf(chunks[k]));
    }
  }

  lemma PlainDigests(H: Hasher, chunks: seq<Bytes>)
    requires Separated(H) && PlainChunks(chunks)
    ensures Merkle.NoNodeValues(H, Digests(H, chunks))
  {
    forall d | d in Digests(H, chunks)
      ensures !IsNodeValue(H, d)
    {
      var i :| 0 <= i < |chunks| && Digests(H, chunks)[i] == d;
      assert chunks[i] in chunks;
    }
  }

  // ----- the rows of one backup -----

  lemma {:induction false} RowsForHashes(env: Env, disk: Disk, chunks: seq<Bytes>, wanted: set<Digest>)
    ensures forall r :: r in RowsFor(env, disk, chunks, wanted) ==> r.hash in wanted && r.hash in Digests(env.hasher, chunks)
    ensures forall d :: d in wanted && d in Digests(env.hasher, chunks) ==>
              exists r :: r in RowsFor(env, disk, chunks, wanted) && r.hash == d
    decreases |chunks|
  {
    if chunks == [] {
    } else {
      var k := |chunks| - 1;
      var front, rows := chunks[..k], RowsFor(env, disk, chunks[..k], wanted);
      RowsForHashes(env, disk, front, wanted);
      DigestsSnoc(env.hasher, front, chunks[k]);
      assert chunks == front + [chunks[k]];
      assert Digests(env.hasher, chunks) == Digests(env.hasher, front) + [env.hasher.chunk(chunks[k])];
      var row := Row(env, disk, chunks[k]);
      if row.hash in wanted {
        assert RowsFor(env, disk, chunks, wanted) == rows + [row];
        assert row in rows + [row];
      }
      assert forall r :: r in rows ==> r in RowsFor(env, disk, chunks, wanted);
    }
  }

  lemma RowSetIs(s: Snapshot, wanted: set<Digest>)
    requires forall r :: r in s.rows ==> r.hash in wanted
    requires forall d :: d in wanted ==> exists r :: r in s.rows && r.hash == d
    ensures RowSet(s) == wanted
  {
    forall d | d in wanted
      ensures d in RowSet(s)
    {
      var r :| r in s.rows && r.hash == d;
      var i :| 0 <= i < |s.rows| && s.rows[i] == r;
      assert RowHashes(s)[i] == d;
    }
    forall d | d in RowSet(s)
      ensures d in wanted
    {
      var i :| 0 <= i < |s.rows| && RowHashes(s)[i] == d;
      assert s.rows[i] in s.rows;
    }
  }

  lemma OrderElements(s: Snapshot, order: seq<Digest>)
    requires multiset(order) == multiset(RowHashes(s))
    ensures Elements(order) == RowSet(s)
  {
    assert forall d :: d in order <==> d in multiset(order);
    assert forall d :: d in RowHashes(s) <==> d in multiset(RowHashes(s));
  }

  /** The manifest is the chunk list of all files, file by file. */
  lemma {:induction false} ManifestHashes(H: Hasher, files: seq<SourceFile>)
    ensures AllHashes(Manifest(H, files)) == Digests(H, AllChunks(files))
    decreases |files|
  {
    if files == [] {
      assert AllHashes(Manifest(H, files)) == [];
      assert AllChunks(files) == [];
    } else {
      var front, last := files[..|files| - 1], files[|files| - 1];
      ManifestHashes(H, front);
      assert files == front + [last];
      assert Manifest(H, files) == Manifest(H, front) + [Record(H, last)];
      RestoreWorker.AllHashesSnoc(Manifest(H, front), Record(H, last));
      AllChunksSnoc(front, last);
      MapAppend(H.chunk, AllChunks(front), Cdc.Chunks(last.data));
    }
  }

  /** The manifest of a snapshot as a set of digests. */
  ghost function ManifestSet(s: Snapshot): set<Digest> {
    Elements(AllHashes(s.files))
  }

  /** Incremental coverage: the rows of a backup name exactly the digests of its
      manifest that the previous snapshot's rows do not, in whatever order those rows are
      read, unless a digest hides in the other tree. */
  lemma RowsAreNewDigests(env: Env, st: State, source: nat, files: seq<SourceFile>, prev: Option<nat>, order: seq<Digest>)
    requires NodeInjective(env.hasher)
    requires prev.Some? ==> prev.value in st.snaps && multiset(order) == multiset(RowHashes(st.snaps[prev.value]))
    requires prev.Some? ==> Merkle.Unmasked(env.hasher, Digests(env.hasher, AllChunks(files)), order)
    ensures var s := BackupSnapshot(env, st, source, files, prev, order);
            RowSet(s) == ManifestSet(s) - (if prev.Some? then RowSet(st.snaps[prev.value]) else {})
  {
    var H := env.hasher;
    var s := BackupSnapshot(env, st, source, files, prev, order);
    var chunks := AllChunks(files);
    var digests := Digests(H, chunks);
    var wanted := NewHashes(H, digests, if prev.Some? then Some(order) else None);
    ManifestHashes(H, files);
    if prev.Some? {
      OrderElements(st.snaps[prev.value], order);
      Merkle.DiffOfUnmasked(H, digests, order);
    }
    RowsForHashes(env, StoreAll(env, st.disk, chunks), chunks, wanted);
    RowSetIs(s, wanted);
  }

  lemma {:induction false} RowsFilter(env: Env, disk: Disk, chunks: seq<Bytes>, wanted: set<Digest>, drop: set<Digest>)
    requires forall d :: d in Digests(env.hasher, chunks) ==> (d in wanted <==> d !in drop)
    ensures Map((r: ChunkRow) => r.hash, RowsFor(env, disk, chunks, wanted)) == Without(Digests(env.hasher, chunks), drop)
    decreases |chunks|
  {
    if chunks == [] {
    } else {
      var front, c := chunks[..|chunks| - 1], chunks[|chunks| - 1];
      assert chunks == front + [c];
      DigestsSnoc(env.hasher, front, c);
      var d := env.hasher.chunk(c);
      var digests := Digests(env.hasher, front);
      assert forall e :: e in digests ==> e in Digests(env.hasher, chunks);
      assert Digests(env.hasher, chunks)[|front|] == d;
      RowsFilter(env, disk, front, wanted, drop);
      WithoutAppend(digests, [d], drop);
      assert Without([d], drop) == if d in drop then [] else [d];
      var rows := RowsFor(env, disk, front, wanted);
      if d in wanted {
        MapAppend((r: ChunkRow) => r.hash, rows, [Row(env, disk, c)]);
        assert RowsFor(env, disk, chunks, wanted) == rows + [Row(env, disk, c)];
      } else {
        assert RowsFor(env, disk, chunks, wanted) == rows;
      }
    }
  }

  /** The same as a list: the rows follow the manifest, repeats included, and leave out what the
      previous rows name. */
  lemma RowsInOrder(env: Env, st: State, source: nat, files: seq<SourceFile>, prev: Option<nat>, order: seq<Digest>)
    requires NodeInjective(env.hasher)
    requires prev.Some? ==> prev.value in st.snaps && multiset(order) == multiset(RowHashes(st.snaps[prev.value]))
    requires prev.Some? ==> Merkle.Unmasked(env.hasher, Digests(env.hasher, AllChunks(files)), order)
    ensures var s := BackupSnapshot(env, st, source, files, prev, order);
            RowHashes(s) == Without(AllHashes(s.files), if prev.Some? then RowSet(st.snaps[prev.value]) else {})
  {
    var H, chunks := env.hasher, AllChunks(files);
    var wanted := NewHashes(H, Digests(H, chunks), if prev.Some? then Some(order) else None);
    var drop := if prev.Some? then RowSet(st.snaps[prev.value]) else {};
    ManifestHashes(H, files);
    if prev.Some? {
      OrderElements(st.snaps[prev.value], order);
      Merkle.DiffOfUnmasked(H, Digests(H, chunks), order);
    }
    assert forall d :: d in Digests(H, chunks) <==> d in Elements(Digests(H, chunks));
    RowsFilter(env, StoreAll(env, st.disk, chunks), chunks, wanted, drop);
  }

  // ----- sizes -----

  /** The sum of a size over a set. */
  ghost function Weight<T>(size: T -> nat, ds: set<T>): nat {
    if ds == {} then 0 else
      var d :| d in ds;
      size(d) + Weight(size, ds - {d})
  }

  lemma {:induction false} WeightRemove<T>(size: T -> nat, ds: set<T>, d: T)
    requires d in ds
    ensures Weight(size, ds) == size(d) + Weight(size, ds - {d})
    decreases |ds|
  {
    var e :| e in ds && Weight(size, ds) == size(e) + Weight(size, ds - {e});
    if e == d {
    } else {
      WeightRemove(size, ds - {e}, d);
      WeightRemove(size, ds - {d}, e);
      assert ds - {e} - {d} == ds - {d} - {e};
    }
  }

  lemma {:induction false} WeightSplit<T>(size: T -> nat, a: set<T>, b: set<T>)
    requires a !! b
    ensures Weight(size, a + b) == Weight(size, a) + Weight(size, b)
    decreases |a|
  {
    if a == {} {
      assert a + b == b;
    } else {
      var d :| d in a;
      WeightRemove(size, a, d);
      WeightRemove(size, a + b, d);
      WeightSplit(size, a - {d}, b);
      assert a + b - {d} == (a - {d}) + b;
    }
  }

  lemma {:induction false} WeightAgrees<T>(f: T -> nat, g: T -> nat, ds: set<T>)
    requires forall d :: d in ds ==> f(d) == g(d)
    ensures Weight(f, ds) == Weight(g, ds)
    decreases |ds|
  {
    if ds == {} {
    } else {
      var d :| d in ds;
      WeightRemove(f, ds, d);
      WeightRemove(g, ds, d);
      WeightAgrees(f, g, ds - {d});
    }
  }

  function RawSize(env: Env, disk: Disk): Digest -> nat {
    d => match Fetch(env, disk, d)
         case Ok(data) => |data|
         case Err(_) => 0
  }

  /** Total raw length of everything on disk. */
  ghost function LogicalSize(env: Env, disk: Disk): nat {
    Weight(RawSize(env, disk), disk.Keys)
  }

  lemma StoredSize(env: Env, disk: Disk, c: Bytes)
    requires ZstdLaws(env) && ChunkInjective(env.hasher) && Faithful(env, disk) && Readable(env, c, env.entropyOf(c))
    ensures LogicalSize(env, Stored(env, disk, c, env.entropyOf(c)))
         == LogicalSize(env, disk) + if env.hasher.chunk(c) in disk then 0 else |c|
  {
    var d := env.hasher.chunk(c);
    var disk' := Stored(env, disk, c, env.entropyOf(c));
    if d !in disk {
      StoreThenFetch(env, disk, c, env.entropyOf(c));
      assert disk'.Keys - {d} == disk.Keys;
      WeightRemove(RawSize(env, disk'), disk'.Keys, d);
      forall e | e in disk.Keys
        ensures RawSize(env, disk)(e) == RawSize(env, disk')(e)
      {
        assert Fetch(env, disk, e) == Fetch(env, disk', e);
      }
      WeightAgrees(RawSize(env, disk), RawSize(env, disk'), disk.Keys);
    }
  }

  /** dedup_size_bytes is exactly what the backup adds to the logical size of the store. */
  lemma {:induction false} NewBytesConserved(env: Env, disk: Disk, chunks: seq<Bytes>)
    requires ZstdLaws(env) && ChunkInjective(env.hasher) && Faithful(env, disk) && ReadableChunks(env, chunks)
    ensures LogicalSize(env, StoreAll(env, disk, chunks)) == LogicalSize(env, disk) + NewBytes(env, disk, chunks)
    decreases |chunks|
  {
    if chunks == [] {
    } else {
      var k := |chunks| - 1;
      assert forall c :: c in chunks[..k] ==> c in chunks;
      NewBytesConserved(env, disk, chunks[..k]);
      StoreAllFaithful(env, disk, chunks[..k]);
      assert chunks[k] in chunks;
      StoredSize(env, StoreAll(env, disk, chunks[..k]), chunks[k]);
    }
  }

  lemma TotalBytesAppend(a: seq<Bytes>, b: seq<Bytes>)
    ensures TotalBytes(a + b) == TotalBytes(a) + TotalBytes(b)
  {
    var size := (c: Bytes) => |c|;
    assert Map(size, a + b) == Map(size, a) + Map(size, b);
    SumNatAppend(Map(size, a), Map(size, b));
  }

  lemma {:induction false} NewBytesBounded(env: Env, disk: Disk, chunks: seq<Bytes>)
    ensures NewBytes(env, disk, chunks) <= TotalBytes(chunks)
    decreases |chunks|
  {
    if chunks == [] {
    } else {
      var k := |chunks| - 1;
      NewBytesBounded(env, disk, chunks[..k]);
      TotalBytesAppend(chunks[..k], [chunks[k]]);
      assert chunks == chunks[..k] + [chunks[k]];
      assert Map((c: Bytes) => |c|, [chunks[k]]) == [|chunks[k]|];
      assert SumNat([|chunks[k]|]) == |chunks[k]| + SumNat([|chunks[k]|][1..]);
    }
  }

  lemma {:induction false} TotalBytesFlatten(chunks: seq<Bytes>)
    ensures TotalBytes(chunks) == |Flatten(chunks)|
  {
    if chunks == [] {
    } else {
      TotalBytesFlatten(chunks[1..]);
      assert Map((c: Bytes) => |c|, chunks)[1..] == Map((c: Bytes) => |c|, chunks[1..]);
    }
  }

  /** total_size_bytes is the size of the files. */
  lemma {:induction false} TotalIsFileSizes(files: seq<SourceFile>)
    ensures TotalBytes(AllChunks(files)) == SumNat(Map((f: SourceFile) => |f.data|, files))
  {
    if files == [] {
      assert AllChunks(files) == [];
    } else {
      var rest := files[1..];
      TotalIsFileSizes(rest);
      Cdc.ChunksPartition(files[0].data);
      TotalBytesFlatten(Cdc.Chunks(files[0].data));
      TotalBytesAppend(Cdc.Chunks(files[0].data), AllChunks(rest));
      assert Map((f: SourceFile) => Cdc.Chunks(f.data), files)[1..] == Map((f: SourceFile) => Cdc.Chunks(f.data), rest);
      assert Map((f: SourceFile) => |f.data|, files)[1..] == Map((f: SourceFile) => |f.data|, rest);
    }
  }

  /** The row gives the raw size of the chunk, the size of its file on disk and its entropy. */
  predicate IsRowOf(env: Env, disk: Disk, c: Bytes, r: ChunkRow) {
    r.hash == env.hasher.chunk(c) && r.size == |c| && r.hash in disk && r.stored == |disk[r.hash]| && r.entropy == env.entropyOf(c)
  }

  predicate DescribesChunk(env: Env, disk: Disk, chunks: seq<Bytes>, r: ChunkRow) {
    exists i :: 0 <= i < |chunks| && IsRowOf(env, disk, chunks[i], r)
  }

  lemma {:induction false} RowsDescribe(env: Env, disk: Disk, chunks: seq<Bytes>, wanted: set<Digest>)
    requires Elements(Digests(env.hasher, chunks)) <= disk.Keys
    ensures forall r :: r in RowsFor(env, disk, chunks, wanted) ==> DescribesChunk(env, disk, chunks, r)
    decreases |chunks|
  {
    if chunks == [] {
    } else {
      var front, c := chunks[..|chunks| - 1], chunks[|chunks| - 1];
      assert chunks == front + [c];
      DigestsSnoc(env.hasher, front, c);
      RowsDescribe(env, disk, front, wanted);
      forall r | r in RowsFor(env, disk, chunks, wanted)
        ensures DescribesChunk(env, disk, chunks, r)
      {
        if r in RowsFor(env, disk, front, wanted) {
          var i :| 0 <= i < |front| && IsRowOf(env, disk, front[i], r);
          assert chunks[i] == front[i];
        } else {
          assert IsRowOf(env, disk, chunks[|front|], r);
        }
      }
    }
  }

  lemma NewHashesOccur(H: Hasher, digests: seq<Digest>, previous: Option<seq<Digest>>)
    ensures NewHashes(H, digests, previous) <= Elements(digests)
  {
    if previous.Some? {
      Merkle.DiffSound(H, digests, previous.value);
    }
  }

  /** The summary columns of a backup and its chunk rows, whatever the hash does. */
  lemma BackupMetrics(env: Env, st: State, source: nat, files: seq<SourceFile>, prev: Option<nat>, order: seq<Digest>)
    ensures var s := BackupSnapshot(env, st, source, files, prev, order);
            && s.totalSize == SumNat(Map((f: SourceFile) => |f.data|, files)) && s.dedupSize <= s.totalSize
            && s.chunkCount == |AllHashes(s.files)| && s.newChunkCount == |RowSet(s)|
            && forall r :: r in s.rows ==> DescribesChunk(env, StoreAll(env, st.disk, AllChunks(files)), AllChunks(files), r)
  {
    var s := BackupSnapshot(env, st, source, files, prev, order);
    var chunks := AllChunks(files);
    var digests := Digests(env.hasher, chunks);
    var wanted := NewHashes(env.hasher, digests, if prev.Some? then Some(order) else None);
    var disk := StoreAll(env, st.disk, chunks);
    TotalIsFileSizes(files);
    NewBytesBounded(env, st.disk, chunks);
    ManifestHashes(env.hasher, files);
    NewHashesOccur(env.hasher, digests, if prev.Some? then Some(order) else None);
    RowsForHashes(env, disk, chunks, wanted);
    RowSetIs(s, wanted);
    StoreAllKeys(env, st.disk, chunks);
    RowsDescribe(env, disk, chunks, wanted);
  }

  // ----- the root of nothing -----

  lemma {:induction false} NoEmptyChunk(files: seq<SourceFile>, i: nat)
    requires i < |AllChunks(files)|
    ensures AllChunks(files)[i] != []
    decreases |files|
  {
    var front, last := files[..|files| - 1], files[|files| - 1];
    assert files == front + [last];
    AllChunksSnoc(front, last);
    if i < |AllChunks(front)| {
      NoEmptyChunk(front, i);
    } else {
      Cdc.ChunksPartition(last.data);
    }
  }

  /** Without file contents the root is the hash of the empty string, and that tells such
      backups from all others. */
  lemma EmptyRootWhen(sha: Bytes -> Digest, hex: Digest -> Bytes, files: seq<SourceFile>)
    requires forall a, b :: sha(a) == sha(b) ==> a == b
    requires forall d :: |hex(d)| == 64
    ensures var H := FromSha(sha, hex);
            Merkle.Root(H, Digests(H, AllChunks(files))) == sha([]) <==> AllChunks(files) == []
  {
    var H, chunks := FromSha(sha, hex), AllChunks(files);
    if chunks != [] {
      var tree := Merkle.Build(H, Digests(H, chunks)).value;
      Merkle.BuildShape(H, Digests(H, chunks));
      Merkle.HashKind(H, tree);
      if tree.Leaf? {
        Merkle.PaddedElements(Digests(H, chunks));
        assert tree.hash in Elements(Merkle.Leaves(tree));
        var i :| 0 <= i < |chunks| && Digests(H, chunks)[i] == tree.hash;
        NoEmptyChunk(files, i);
      } else {
        var l, r :| tree.hash == H.node(l, r);
        assert |hex(l) + hex(r)| == 128;
      }
    }
  }
}
