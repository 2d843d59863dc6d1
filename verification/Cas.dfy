/** Content-addressed storage: app/core/cas.py. */
module Cas {
  import opened Basics
  import opened Hashing

  const ZSTD_MAGIC: Bytes := [0x28, 0xb5, 0x2f, 0xfd]
  const COMPRESS_ENTROPY_THRESHOLD := 7.2

  /** What the store calls but does not define: the hash, the entropy measure
      and the zstd library, which may be missing. */
  datatype Env = Env(
    hasher: Hasher,
    entropyOf: Bytes -> real,
    haveZstd: bool,
    compress: Bytes -> Bytes,
    decompress: Bytes -> Option<Bytes>)

  datatype CasError = ChunkNotFound | ZstdMissing | DecompressFailed

  /** Payload files by digest. */
  type Disk = map<Digest, Bytes>

  predicate StartsWithMagic(data: Bytes) {
    ZSTD_MAGIC <= data
  }

  /** Every frame starts with the magic number (section 3.1.1 of RFC 8878) and decompresses to its source. */
  ghost predicate ZstdLaws(env: Env) {
    forall data :: StartsWithMagic(env.compress(data)) && env.decompress(env.compress(data)) == Some(data)
  }

  predicate Compresses(env: Env, entropy: real) {
    env.haveZstd && entropy < COMPRESS_ENTROPY_THRESHOLD
  }

  function Payload(env: Env, data: Bytes, entropy: real): Bytes {
    if Compresses(env, entropy) then env.compress(data) else data
  }

  function Decode(env: Env, payload: Bytes): Result<Bytes, CasError> {
    if StartsWithMagic(payload) then
      if !env.haveZstd then Err(ZstdMissing)
      else match env.decompress(payload)
        case Some(data) => Ok(data)
        case None => Err(DecompressFailed)
    else Ok(payload)
  }

  function Fetch(env: Env, disk: Disk, digest: Digest): Result<Bytes, CasError> {
    if digest !in disk then Err(ChunkNotFound) else Decode(env, disk[digest])
  }

  function Stored(env: Env, disk: Disk, data: Bytes, entropy: real): Disk {
    var digest := env.hasher.chunk(data);
    if digest in disk then disk else disk[digest := Payload(env, data, entropy)]
  }

  class CASStore {
    const env: Env
    var files: Disk

    constructor (env: Env)
      ensures this.env == env && files == map[]
    {
      this.env := env;
      files := map[];
    }

    method Store(data: Bytes, entropy: Option<real>) returns (digest: Digest, isNew: bool, storedBytes: nat)
      modifies this
      ensures digest == env.hasher.chunk(data)
      ensures isNew <==> digest !in old(files)
      ensures files == Stored(env, old(files), data, if entropy.Some? then entropy.value else env.entropyOf(data))
      ensures digest in files && storedBytes == |files[digest]|
      ensures isNew ==>
                files[digest] == if env.haveZstd && (if entropy.Some? then entropy.value else env.entropyOf(data)) < 7.2
                                 then env.compress(data) else data
    {
      digest := env.hasher.chunk(data);
      if digest in files {
        return digest, false, |files[digest]|;
      }
      var e := if entropy.Some? then entropy.value else env.entropyOf(data);
      var payload := data;
      if env.haveZstd && e < COMPRESS_ENTROPY_THRESHOLD {
        payload := env.compress(data);
      }
      files := files[digest := payload];
      return digest, true, |payload|;
    }

    method Retrieve(digest: Digest) returns (r: Result<Bytes, CasError>)
      ensures r == Fetch(env, files, digest)
      ensures digest !in files ==> r == Err(ChunkNotFound)
      ensures digest in files ==>
                if !([0x28, 0xb5, 0x2f, 0xfd] <= files[digest]) then r == Ok(files[digest])
                else if !env.haveZstd then r == Err(ZstdMissing)
                else if env.decompress(files[digest]).Some? then r == Ok(env.decompress(files[digest]).value)
                else r == Err(DecompressFailed)
    {
      if digest !in files {
        return Err(ChunkNotFound);
      }
      var data := files[digest];
      if |data| >= 4 && data[..4] == ZSTD_MAGIC {
        if !env.haveZstd {
          return Err(ZstdMissing);
        }
        var plain := env.decompress(data);
        return if plain.Some? then Ok(plain.value) else Err(DecompressFailed);
      }
      return Ok(data);
    }

    method Exists(digest: Digest) returns (found: bool)
      ensures found <==> digest in files
    {
      found := digest in files;
    }

    method Delete(digest: Digest) returns (deleted: bool)
      modifies this
      ensures deleted <==> digest in old(files)
      ensures files == old(files) - {digest}
    {
      if digest !in files {
        return false;
      }
      files := files - {digest};
      deleted := true;
    }
  }

  // ----- the store as a map from digests to original bytes -----

  /** Storing this chunk keeps it readable: it is compressed, or it does not look compressed. */
  predicate Readable(env: Env, data: Bytes, entropy: real) {
    Compresses(env, entropy) || !StartsWithMagic(data)
  }

  /** A freshly stored chunk comes back unchanged exactly when it is compressed,
      or does not start with the magic number, or is a frame of itself. */
  lemma StoreThenFetch(env: Env, disk: Disk, data: Bytes, entropy: real)
    requires ZstdLaws(env) && env.hasher.chunk(data) !in disk
    ensures Fetch(env, Stored(env, disk, data, entropy), env.hasher.chunk(data)) == Ok(data)
       <==> (env.haveZstd && (entropy < 7.2 || env.decompress(data) == Some(data))) || !([0x28, 0xb5, 0x2f, 0xfd] <= data)
  {
    assert StartsWithMagic(env.compress(data));
  }

  /** The name of a chunk file is the hash of the file's bytes if and only if the chunk is stored
      raw or is its own frame. */
  lemma RehashWhen(env: Env, disk: Disk, data: Bytes, entropy: real)
    requires ChunkInjective(env.hasher) && env.hasher.chunk(data) !in disk
    ensures var d := env.hasher.chunk(data);
            env.hasher.chunk(Stored(env, disk, data, entropy)[d]) == d
            <==> !(env.haveZstd && entropy < 7.2) || env.compress(data) == data
  {
  }

  /** What a process without the zstd library reads of what one with it has stored: nothing
      below the entropy threshold, and nothing that starts with the magic number. */
  lemma ReadWithoutLibrary(env: Env, disk: Disk, data: Bytes, entropy: real)
    requires ZstdLaws(env) && env.haveZstd && env.hasher.chunk(data) !in disk
    ensures Fetch(env.(haveZstd := false), Stored(env, disk, data, entropy), env.hasher.chunk(data))
         == if entropy < 7.2 || [0x28, 0xb5, 0x2f, 0xfd] <= data then Err(ZstdMissing) else Ok(data)
  {
    assert StartsWithMagic(env.compress(data));
  }

  datatype Op =
    | StoreOp(data: Bytes, entropy: Option<real>)
    | RetrieveOp(digest: Digest)
    | ExistsOp(digest: Digest)
    | DeleteOp(digest: Digest)

  datatype Answer =
    | StoredAs(digest: Digest, isNew: bool)
    | Retrieved(data: Result<Bytes, CasError>)
    | Flag(value: bool)

  function EntropyUsed(env: Env, op: Op): real
    requires op.StoreOp?
  {
    if op.entropy.Some? then op.entropy.value else env.entropyOf(op.data)
  }

  function DiskStep(env: Env, disk: Disk, op: Op): (Disk, Answer) {
    match op
    case StoreOp(data, _) =>
      var digest := env.hasher.chunk(data);
      (Stored(env, disk, data, EntropyUsed(env, op)), StoredAs(digest, digest !in disk))
    case RetrieveOp(digest) => (disk, Retrieved(Fetch(env, disk, digest)))
    case ExistsOp(digest) => (disk, Flag(digest in disk))
    case DeleteOp(digest) => (disk - {digest}, Flag(digest in disk))
  }

  /** The same operation on a plain map that knows nothing of encodings. */
  function BlobStep(H: Hasher, blobs: map<Digest, Bytes>, op: Op): (map<Digest, Bytes>, Answer) {
    match op
    case StoreOp(data, _) =>
      var digest := H.chunk(data);
      (if digest in blobs then blobs else blobs[digest := data], StoredAs(digest, digest !in blobs))
    case RetrieveOp(digest) =>
      (blobs, Retrieved(if digest in blobs then Ok(blobs[digest]) else Err(ChunkNotFound)))
    case ExistsOp(digest) => (blobs, Flag(digest in blobs))
    case DeleteOp(digest) => (blobs - {digest}, Flag(digest in blobs))
  }

  function DiskAnswers(env: Env, disk: Disk, ops: seq<Op>): seq<Answer>
    decreases |ops|
  {
    if ops == [] then [] else
      var (disk', answer) := DiskStep(env, disk, ops[0]);
      [answer] + DiskAnswers(env, disk', ops[1..])
  }

  function BlobAnswers(H: Hasher, blobs: map<Digest, Bytes>, ops: seq<Op>): seq<Answer>
    decreases |ops|
  {
    if ops == [] then [] else
      var (blobs', answer) := BlobStep(H, blobs, ops[0]);
      [answer] + BlobAnswers(H, blobs', ops[1..])
  }

  ghost predicate Represents(env: Env, disk: Disk, blobs: map<Digest, Bytes>) {
    disk.Keys == blobs.Keys && forall d :: d in blobs ==> Fetch(env, disk, d) == Ok(blobs[d])
  }

  ghost predicate AllReadable(env: Env, ops: seq<Op>) {
    forall op :: op in ops && op.StoreOp? ==> Readable(env, op.data, EntropyUsed(env, op))
  }

  lemma StepRepresents(env: Env, disk: Disk, blobs: map<Digest, Bytes>, op: Op)
    requires ZstdLaws(env) && Represents(env, disk, blobs) && AllReadable(env, [op])
    ensures Represents(env, DiskStep(env, disk, op).0, BlobStep(env.hasher, blobs, op).0)
    ensures DiskStep(env, disk, op).1 == BlobStep(env.hasher, blobs, op).1
  {
    if op.StoreOp? {
      assert op in [op];
      if env.hasher.chunk(op.data) !in disk {
        StoreThenFetch(env, disk, op.data, EntropyUsed(env, op));
      }
    }
  }

  /** No client can tell the encoded store from the map, over any sequence of operations. */
  lemma {:induction false} DiskRefinesMap(env: Env, disk: Disk, blobs: map<Digest, Bytes>, ops: seq<Op>)
    requires ZstdLaws(env) && Represents(env, disk, blobs) && AllReadable(env, ops)
    ensures DiskAnswers(env, disk, ops) == BlobAnswers(env.hasher, blobs, ops)
    decreases |ops|
  {
    if ops == [] {
    } else {
      var disk' := DiskStep(env, disk, ops[0]).0;
      var blobs' := BlobStep(env.hasher, blobs, ops[0]).0;
      assert ops[0] in ops;
      StepRepresents(env, disk, blobs, ops[0]);
      assert forall op :: op in ops[1..] ==> op in ops;
      DiskRefinesMap(env, disk', blobs', ops[1..]);
    }
  }

  /** A repeated store changes nothing. */
  lemma StoreTwice(env: Env, disk: Disk, data: Bytes, e: real, e': real)
    ensures Stored(env, Stored(env, disk, data, e), data, e') == Stored(env, disk, data, e)
  {
  }

  // ----- everything on disk decodes to the bytes its name promises -----

  ghost predicate Faithful(env: Env, disk: Disk) {
    forall d :: d in disk ==> Fetch(env, disk, d).Ok? && env.hasher.chunk(Fetch(env, disk, d).value) == d
  }

  lemma FaithfulSubset(env: Env, disk: Disk, disk': Disk)
    requires Faithful(env, disk) && disk'.Keys <= disk.Keys && forall d :: d in disk' ==> disk'[d] == disk[d]
    ensures Faithful(env, disk')
  {
    forall d | d in disk'
      ensures Fetch(env, disk', d).Ok? && env.hasher.chunk(Fetch(env, disk', d).value) == d
    {
      assert d in disk && Fetch(env, disk', d) == Fetch(env, disk, d);
    }
  }

  lemma StoredFaithful(env: Env, disk: Disk, data: Bytes, entropy: real)
    requires ZstdLaws(env) && Faithful(env, disk) && Readable(env, data, entropy)
    ensures Faithful(env, Stored(env, disk, data, entropy))
  {
    var disk' := Stored(env, disk, data, entropy);
    if env.hasher.chunk(data) !in disk {
      StoreThenFetch(env, disk, data, entropy);
    }
    forall d | d in disk'
      ensures Fetch(env, disk', d).Ok? && env.hasher.chunk(Fetch(env, disk', d).value) == d
    {
      if d in disk {
        assert Fetch(env, disk', d) == Fetch(env, disk, d);
      }
    }
  }

  /** In a faithful store a digest names the one chunk that has it. */
  lemma FetchByContent(env: Env, disk: Disk, data: Bytes)
    requires ChunkInjective(env.hasher) && Faithful(env, disk)
    requires env.hasher.chunk(data) in disk
    ensures Fetch(env, disk, env.hasher.chunk(data)) == Ok(data)
  {
    var d := env.hasher.chunk(data);
    assert env.hasher.chunk(Fetch(env, disk, d).value) == env.hasher.chunk(data);
  }
}
