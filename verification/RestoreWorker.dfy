/** The restore job: app/workers/restore_worker.py. */
module RestoreWorker {
  import opened Basics
  import opened Hashing
  import opened Cas
  import opened Records
  import Merkle

  datatype JobStatus = Running | Verifying | Completed | Failed

  datatype RestoreError =
    | SnapshotNotFound
    | FileNotInSnapshot
    | ChunkUnreadable(cause: CasError)
    | RootMismatch

  /** The files below the restore path, by relative path. */
  type Tree = map<string, Bytes>

  // ----- what a job yields -----

  function Reassemble(env: Env, disk: Disk, hashes: seq<Digest>): Result<Bytes, CasError>
    decreases |hashes|
  {
    if hashes == [] then Ok([]) else
      var k := |hashes| - 1;
      match Reassemble(env, disk, hashes[..k])
      case Err(e) => Err(e)
      case Ok(front) =>
        match Fetch(env, disk, hashes[k])
        case Err(e) => Err(e)
        case Ok(data) => Ok(front + data)
  }

  function WriteFiles(env: Env, disk: Disk, records: seq<FileRecord>): Result<Tree, CasError>
    decreases |records|
  {
    if records == [] then Ok(map[]) else
      var k := |records| - 1;
      match WriteFiles(env, disk, records[..k])
      case Err(e) => Err(e)
      case Ok(tree) =>
        match Reassemble(env, disk, records[k].hashes)
        case Err(e) => Err(e)
        case Ok(data) => Ok(tree[records[k].path := data])
  }

  function WithPath(records: seq<FileRecord>, path: string): seq<FileRecord>
    decreases |records|
  {
    if records == [] then [] else
      var k := |records| - 1;
      WithPath(records[..k], path) + if records[k].path == path then [records[k]] else []
  }

  function Selected(records: seq<FileRecord>, filePath: Option<string>): seq<FileRecord> {
    if filePath.Some? then WithPath(records, filePath.value) else records
  }

  function Decimal(n: nat): string {
    var digit := (n % 10 + 48) as char;
    if n < 10 then [digit] else Decimal(n / 10) + [digit]
  }

  function BlobName(id: nat): string {
    "snapshot_" + Decimal(id) + ".bin"
  }

  function Restore(env: Env, st: State, id: nat, filePath: Option<string>): Result<Tree, RestoreError> {
    if id !in st.snaps then Err(SnapshotNotFound) else
      var s := st.snaps[id];
      var records := Selected(s.files, filePath);
      if s.files != [] && records == [] then Err(FileNotInSnapshot) else
        // without file records the rows are written out as one blob
        var (written, hashes) :=
          if s.files != [] then (WriteFiles(env, st.disk, records), AllHashes(records))
          else (match Reassemble(env, st.disk, RowHashes(s))
                case Err(e) => Err(e)
                case Ok(blob) => Ok(map[BlobName(id) := blob]),
                RowHashes(s));
        if written.Err? then Err(ChunkUnreadable(written.error))
        else if filePath.None? && Merkle.Root(env.hasher, hashes) != s.root then Err(RootMismatch)
        else Ok(written.value)
  }

  // ----- when a job succeeds, and what it then has written, in any state -----

  /** The digests a job reads, in order. */
  function Needed(s: Snapshot, filePath: Option<string>): seq<Digest> {
    if s.files != [] then AllHashes(Selected(s.files, filePath)) else RowHashes(s)
  }

  ghost predicate AllReadable(env: Env, disk: Disk, hashes: seq<Digest>) {
    forall i :: 0 <= i < |hashes| ==> Fetch(env, disk, hashes[i]).Ok?
  }

  /** The chunk at position i is the first that cannot be read. */
  ghost predicate FirstUnreadable(env: Env, disk: Disk, hashes: seq<Digest>, i: int, cause: CasError) {
    0 <= i < |hashes| && AllReadable(env, disk, hashes[..i]) && Fetch(env, disk, hashes[i]) == Err(cause)
  }

  ghost predicate StopsAtUnreadable(env: Env, disk: Disk, hashes: seq<Digest>, cause: CasError) {
    exists i :: FirstUnreadable(env, disk, hashes, i, cause)
  }

  /** The bytes behind some digests, one after the other. */
  ghost function Joined(env: Env, disk: Disk, hashes: seq<Digest>): Bytes
    requires AllReadable(env, disk, hashes)
  {
    Flatten(seq(|hashes|, i requires 0 <= i < |hashes| => Fetch(env, disk, hashes[i]).value))
  }

  lemma JoinedSnoc(env: Env, disk: Disk, hashes: seq<Digest>, d: Digest)
    requires AllReadable(env, disk, hashes) && Fetch(env, disk, d).Ok?
    ensures AllReadable(env, disk, hashes + [d])
    ensures Joined(env, disk, hashes + [d]) == Joined(env, disk, hashes) + Fetch(env, disk, d).value
  {
    var more := hashes + [d];
    var parts := seq(|hashes|, i requires 0 <= i < |hashes| => Fetch(env, disk, hashes[i]).value);
    FlattenSnoc(parts, Fetch(env, disk, d).value);
    assert seq(|more|, i requires 0 <= i < |more| => Fetch(env, disk, more[i]).value) == parts + [Fetch(env, disk, d).value];
  }

  lemma UnreadableInFront(env: Env, disk: Disk, a: seq<Digest>, b: seq<Digest>, cause: CasError)
    requires StopsAtUnreadable(env, disk, a, cause)
    ensures StopsAtUnreadable(env, disk, a + b, cause)
  {
    var i :| FirstUnreadable(env, disk, a, i, cause);
    assert (a + b)[..i] == a[..i];
    assert FirstUnreadable(env, disk, a + b, i, cause);
  }

  lemma UnreadableBehind(env: Env, disk: Disk, a: seq<Digest>, b: seq<Digest>, cause: CasError)
    requires AllReadable(env, disk, a) && StopsAtUnreadable(env, disk, b, cause)
    ensures StopsAtUnreadable(env, disk, a + b, cause)
  {
    var i :| FirstUnreadable(env, disk, b, i, cause);
    assert (a + b)[..|a| + i] == a + b[..i];
    assert FirstUnreadable(env, disk, a + b, |a| + i, cause);
  }

  lemma {:induction false} ReassembleJoins(env: Env, disk: Disk, hashes: seq<Digest>)
    ensures match Reassemble(env, disk, hashes)
            case Ok(data) => AllReadable(env, disk, hashes) && data == Joined(env, disk, hashes)
            case Err(cause) => StopsAtUnreadable(env, disk, hashes, cause)
    decreases |hashes|
  {
    if hashes == [] {
    } else {
      var k := |hashes| - 1;
      ReassembleJoins(env, disk, hashes[..k]);
      assert hashes == hashes[..k] + [hashes[k]];
      match Reassemble(env, disk, hashes[..k]) {
        case Ok(front) =>
          if Fetch(env, disk, hashes[k]).Ok? {
            JoinedSnoc(env, disk, hashes[..k], hashes[k]);
          } else {
            assert FirstUnreadable(env, disk, hashes, k, Fetch(env, disk, hashes[k]).error);
          }
        case Err(cause) =>
          UnreadableInFront(env, disk, hashes[..k], [hashes[k]], cause);
      }
    }
  }

  lemma AllHashesSnoc(records: seq<FileRecord>, f: FileRecord)
    ensures AllHashes(records + [f]) == AllHashes(records) + f.hashes
  {
    var hashesOf := (f: FileRecord) => f.hashes;
    assert Map(hashesOf, records + [f]) == Map(hashesOf, records) + [f.hashes];
    FlattenSnoc(Map(hashesOf, records), f.hashes);
  }

  predicate HasPath(records: seq<FileRecord>, path: string) {
    exists i :: 0 <= i < |records| && records[i].path == path
  }

  lemma PathSnoc(front: seq<FileRecord>, f: FileRecord, path: string)
    ensures HasPath(front + [f], path) <==> HasPath(front, path) || f.path == path
  {
    var records := front + [f];
    assert records[|front|] == f;
    if i :| 0 <= i < |front| && front[i].path == path {
      assert records[i].path == path;
    }
  }

  predicate LastOfPath(records: seq<FileRecord>, i: int) {
    0 <= i < |records| && forall j :: i < j < |records| ==> records[j].path != records[i].path
  }

  /** Under each recorded path lie the bytes of its last record. */
  ghost predicate Holds(env: Env, disk: Disk, records: seq<FileRecord>, tree: Tree) {
    && (forall path :: path in tree <==> HasPath(records, path))
    && forall i :: LastOfPath(records, i) && records[i].path in tree ==>
         AllReadable(env, disk, records[i].hashes) && tree[records[i].path] == Joined(env, disk, records[i].hashes)
  }

  lemma HoldsSnoc(env: Env, disk: Disk, records: seq<FileRecord>, tree: Tree, f: FileRecord)
    requires Holds(env, disk, records, tree) && AllReadable(env, disk, f.hashes)
    ensures Holds(env, disk, records + [f], tree[f.path := Joined(env, disk, f.hashes)])
  {
    var more := records + [f];
    forall path {
      PathSnoc(records, f, path);
    }
    forall i | LastOfPath(more, i) && i < |records|
      ensures LastOfPath(records, i) && more[i].path != f.path
    {
      assert more[|records|] == f;
      assert forall j :: i < j < |records| ==> records[j] == more[j];
    }
  }

  /** All the digests were read and the files written, or the first unreadable one stopped the job. */
  ghost predicate HoldsOrStops(env: Env, disk: Disk, records: seq<FileRecord>, r: Result<Tree, CasError>) {
    match r
    case Ok(tree) => AllReadable(env, disk, AllHashes(records)) && Holds(env, disk, records, tree)
    case Err(cause) => StopsAtUnreadable(env, disk, AllHashes(records), cause)
  }

  lemma WriteSnoc(env: Env, disk: Disk, front: seq<FileRecord>, f: FileRecord, tree: Tree)
    requires HoldsOrStops(env, disk, front, Ok(tree))
    ensures HoldsOrStops(env, disk, front + [f],
                         match Reassemble(env, disk, f.hashes)
                         case Err(e) => Err(e)
                         case Ok(data) => Ok(tree[f.path := data]))
  {
    AllHashesSnoc(front, f);
    ReassembleJoins(env, disk, f.hashes);
    match Reassemble(env, disk, f.hashes)
    case Ok(_) => HoldsSnoc(env, disk, front, tree, f);
    case Err(cause) => UnreadableBehind(env, disk, AllHashes(front), f.hashes, cause);
  }

  lemma {:induction false} WriteFilesHolds(env: Env, disk: Disk, records: seq<FileRecord>)
    ensures HoldsOrStops(env, disk, records, WriteFiles(env, disk, records))
    decreases |records|
  {
    if records == [] {
      assert AllHashes(records) == [];
    } else {
      var front, last := records[..|records| - 1], records[|records| - 1];
      WriteFilesHolds(env, disk, front);
      assert records == front + [last];
      match WriteFiles(env, disk, front) {
        case Ok(tree) =>
          WriteSnoc(env, disk, front, last, tree);
        case Err(cause) =>
          AllHashesSnoc(front, last);
          UnreadableInFront(env, disk, AllHashes(front), last.hashes, cause);
      }
    }
  }

  lemma {:induction false} WithPathIs(records: seq<FileRecord>, path: string)
    ensures forall i :: 0 <= i < |WithPath(records, path)| ==> WithPath(records, path)[i].path == path
    ensures WithPath(records, path) == [] <==> !HasPath(records, path)
    decreases |records|
  {
    if records == [] {
    } else {
      var front, last := records[..|records| - 1], records[|records| - 1];
      WithPathIs(front, path);
      assert records == front + [last];
      PathSnoc(front, last, path);
    }
  }

  lemma {:induction false} WithPathLast(records: seq<FileRecord>, path: string, i: int)
    requires LastOfPath(records, i) && records[i].path == path
    ensures var some := WithPath(records, path); some != [] && some[|some| - 1] == records[i]
    decreases |records|
  {
    var k := |records| - 1;
    if i == k {
    } else {
      assert records[k].path != path;
      WithPathLast(records[..k], path, i);
      assert WithPath(records, path) == WithPath(records[..k], path);
    }
  }

  /** What a job has written: the requested path, or all, with the bytes of the last record of each. */
  ghost predicate Written(env: Env, disk: Disk, records: seq<FileRecord>, filePath: Option<string>, tree: Tree) {
    && (forall path :: path in tree <==> HasPath(records, path) && (filePath.Some? ==> path == filePath.value))
    && forall i :: LastOfPath(records, i) && records[i].path in tree ==>
         AllReadable(env, disk, records[i].hashes) && tree[records[i].path] == Joined(env, disk, records[i].hashes)
  }

  lemma SelectedIsWritten(env: Env, disk: Disk, records: seq<FileRecord>, filePath: Option<string>, tree: Tree)
    requires Holds(env, disk, Selected(records, filePath), tree)
    ensures Written(env, disk, records, filePath, tree)
  {
    if filePath.Some? {
      var some := WithPath(records, filePath.value);
      WithPathIs(records, filePath.value);
      assert forall path :: HasPath(some, path) ==> path == filePath.value;
      assert some != [] ==> HasPath(some, some[0].path) && LastOfPath(some, |some| - 1);
      assert HasPath(records, filePath.value) <==> HasPath(some, filePath.value);
      forall i | LastOfPath(records, i) && records[i].path == filePath.value {
        WithPathLast(records, filePath.value, i);
      }
    }
  }

  /** What was asked for is recorded; a snapshot without records is written out as one blob. */
  predicate Found(s: Snapshot, filePath: Option<string>) {
    s.files == [] || filePath.None? || HasPath(s.files, filePath.value)
  }

  /** Every chunk of what was asked for is read. */
  ghost predicate ReadsAll(env: Env, st: State, id: nat, filePath: Option<string>) {
    id in st.snaps && Found(st.snaps[id], filePath) && AllReadable(env, st.disk, Needed(st.snaps[id], filePath))
  }

  /** When each outcome occurs, in any state and with any columns, and what is then on disk. */
  lemma RestoreOutcome(env: Env, st: State, id: nat, filePath: Option<string>)
    ensures id !in st.snaps ==> Restore(env, st, id, filePath) == Err(SnapshotNotFound)
    ensures id in st.snaps ==>
              var s, needed := st.snaps[id], Needed(st.snaps[id], filePath);
              match Restore(env, st, id, filePath)
              case Ok(tree) =>
                && ReadsAll(env, st, id, filePath) && (filePath.None? ==> Merkle.Root(env.hasher, needed) == s.root)
                && if s.files != [] then Written(env, st.disk, s.files, filePath, tree)
                   else tree == map[BlobName(id) := Joined(env, st.disk, needed)]
              case Err(RootMismatch) =>
                ReadsAll(env, st, id, filePath) && filePath.None? && Merkle.Root(env.hasher, needed) != s.root
              case Err(ChunkUnreadable(cause)) =>
                Found(s, filePath) && StopsAtUnreadable(env, st.disk, needed, cause)
              case Err(FileNotInSnapshot) => !Found(s, filePath)
              case Err(SnapshotNotFound) => false
  {
    if id in st.snaps {
      var s := st.snaps[id];
      if filePath.Some? {
        WithPathIs(s.files, filePath.value);
      }
      WriteFilesHolds(env, st.disk, Selected(s.files, filePath));
      ReassembleJoins(env, st.disk, RowHashes(s));
      if s.files != [] && Restore(env, st, id, filePath).Ok? {
        SelectedIsWritten(env, st.disk, s.files, filePath, Restore(env, st, id, filePath).value);
      }
    }
  }

  /** A whole restore succeeds if and only if every chunk can be read and the digests have the
      stored root; when only the root is wrong, it says so. */
  lemma WholeRestoreWhen(env: Env, st: State, id: nat)
    requires id in st.snaps
    ensures var s, needed := st.snaps[id], Needed(st.snaps[id], None);
            && (Restore(env, st, id, None).Ok? <==>
                  AllReadable(env, st.disk, needed) && Merkle.Root(env.hasher, needed) == s.root)
            && (Restore(env, st, id, None) == Err(RootMismatch) <==>
                  AllReadable(env, st.disk, needed) && Merkle.Root(env.hasher, needed) != s.root)
  {
    RestoreOutcome(env, st, id, None);
  }

  /** A snapshot that was sealed over one list of digests and now records another of equal
      length is never restored as a whole. */
  lemma ResealedNeverRestores(env: Env, st: State, id: nat, sealed: seq<Digest>)
    requires NodeInjective(env.hasher) && id in st.snaps && st.snaps[id].root == Merkle.Root(env.hasher, sealed)
    requires var needed := Needed(st.snaps[id], None); |needed| == |sealed| && needed != sealed
    ensures Restore(env, st, id, None).Err?
    ensures AllReadable(env, st.disk, Needed(st.snaps[id], None)) ==> Restore(env, st, id, None) == Err(RootMismatch)
  {
    WholeRestoreWhen(env, st, id);
    Merkle.RootBindsList(env.hasher, Needed(st.snaps[id], None), sealed);
  }

  /** Reading a decimal numeral. */
  function ReadDecimal(digits: string): int {
    if digits == [] then 0 else ReadDecimal(digits[..|digits| - 1]) * 10 + (digits[|digits| - 1] as int - '0' as int)
  }

  /** The blob is named after the snapshot's number, written in decimal without leading zeros. */
  lemma {:induction false} BlobNamed(id: nat)
    ensures BlobName(id) == "snapshot_" + Decimal(id) + ".bin"
    ensures var digits := Decimal(id);
            && digits != [] && ReadDecimal(digits) == id && (id > 0 ==> digits[0] != '0')
            && forall i :: 0 <= i < |digits| ==> '0' <= digits[i] <= '9'
  {
    var digit := (id % 10 + 48) as char;
    if id < 10 {
      assert ReadDecimal([digit][..0]) == 0;
    } else {
      BlobNamed(id / 10);
      assert (Decimal(id / 10) + [digit])[..|Decimal(id / 10)|] == Decimal(id / 10);
    }
  }

  // ----- the job itself -----

  lemma {:induction false} ReassembleFails(env: Env, disk: Disk, hashes: seq<Digest>, i: nat)
    requires i <= |hashes| && Reassemble(env, disk, hashes[..i]).Err?
    ensures Reassemble(env, disk, hashes) == Reassemble(env, disk, hashes[..i])
    decreases |hashes|
  {
    if i == |hashes| {
      assert hashes[..i] == hashes;
    } else {
      var front := hashes[..|hashes| - 1];
      assert front[..i] == hashes[..i];
      ReassembleFails(env, disk, front, i);
    }
  }

  method WriteChunks(cas: CASStore, hashes: seq<Digest>) returns (r: Result<Bytes, CasError>)
    ensures r == Reassemble(cas.env, cas.files, hashes)
  {
    var out: Bytes := [];
    for i := 0 to |hashes|
      invariant Reassemble(cas.env, cas.files, hashes[..i]) == Ok(out)
    {
      var chunk := cas.Retrieve(hashes[i]);
      assert hashes[..i + 1][..i] == hashes[..i];
      if chunk.Err? {
        ReassembleFails(cas.env, cas.files, hashes, i + 1);
        return Err(chunk.error);
      }
      out := out + chunk.value;
    }
    assert hashes[..|hashes|] == hashes;
    return Ok(out);
  }

  lemma {:induction false} WriteFails(env: Env, disk: Disk, records: seq<FileRecord>, i: nat)
    requires i <= |records| && WriteFiles(env, disk, records[..i]).Err?
    ensures WriteFiles(env, disk, records) == WriteFiles(env, disk, records[..i])
    decreases |records|
  {
    if i == |records| {
      assert records[..i] == records;
    } else {
      var front := records[..|records| - 1];
      assert front[..i] == records[..i];
      WriteFails(env, disk, front, i);
    }
  }

  method WriteRecords(cas: CASStore, records: seq<FileRecord>)
    returns (r: Result<Tree, CasError>, restoredHashes: seq<Digest>)
    ensures r == WriteFiles(cas.env, cas.files, records)
    ensures r.Ok? ==> restoredHashes == AllHashes(records)
  {
    var written: Tree := map[];
    restoredHashes := [];
    for i := 0 to |records|
      invariant WriteFiles(cas.env, cas.files, records[..i]) == Ok(written)
      invariant restoredHashes == AllHashes(records[..i])
    {
      var data := WriteChunks(cas, records[i].hashes);
      assert records[..i + 1][..i] == records[..i];
      if data.Err? {
        WriteFails(cas.env, cas.files, records, i + 1);
        return Err(data.error), restoredHashes;
      }
      written := written[records[i].path := data.value];
      AllHashesSnoc(records[..i], records[i]);
      assert records[..i + 1] == records[..i] + [records[i]];
      restoredHashes := restoredHashes + records[i].hashes;
    }
    assert records[..|records|] == records;
    return Ok(written), restoredHashes;
  }

  method RunRestore(db: Database, id: nat, filePath: Option<string>)
    returns (trace: seq<JobStatus>, written: Result<Tree, RestoreError>)
    ensures written == Restore(db.cas.env, db.Current(), id, filePath)
    ensures trace == [Running] + (if ReadsAll(db.cas.env, db.Current(), id, filePath) then [Verifying] else [])
                     + [if written.Ok? then Completed else Failed]
  {
    RestoreOutcome(db.cas.env, db.Current(), id, filePath);
    trace := [Running];
    if id !in db.snaps {
      return trace + [Failed], Err(SnapshotNotFound);
    }
    var snapshot := db.snaps[id];
    var fileRecords := snapshot.files;
    if filePath.Some? && fileRecords != [] {
      fileRecords := WithPath(fileRecords, filePath.value);
      if fileRecords == [] {
        return trace + [Failed], Err(FileNotInSnapshot);
      }
    }
    var output: Result<Tree, CasError>;
    var restoredHashes: seq<Digest>;
    if fileRecords != [] {
      output, restoredHashes := WriteRecords(db.cas, fileRecords);
    } else {
      restoredHashes := RowHashes(snapshot);
      var blob := WriteChunks(db.cas, restoredHashes);
      output := if blob.Ok? then Ok(map[BlobName(id) := blob.value]) else Err(blob.error);
    }
    if output.Err? {
      return trace + [Failed], Err(ChunkUnreadable(output.error));
    }
    trace := trace + [Verifying];
    if filePath.None? {
      var ok := Merkle.Verify(db.cas.env.hasher, restoredHashes, snapshot.root);
      if !ok {
        return trace + [Failed], Err(RootMismatch);
      }
    }
    return trace + [Completed], Ok(output.value);
  }
}
