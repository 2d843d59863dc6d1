/** Jobs that touch rows but no chunks: synthesize_full_backup (app/api/backups.py),
    verify_snapshot_integrity (app/core/scheduler.py), locks (app/api/snapshots.py). */
module Maintenance {
  import opened Basics
  import opened Hashing
  import opened Cas
  import opened Records
  import Merkle

  const VERIFY_INTERVAL := 7 * 86_400_000_000  // microseconds
  const VERIFY_LIMIT := 100

  // ----- synthetic full backups -----

  datatype SynthesisError = NoSnapshots | NoFileRecords

  function SyntheticSnapshot(H: Hasher, latest: Snapshot, now: int): Snapshot {
    var hashes := AllHashes(latest.files);
    Snapshot(latest.source, Merkle.Root(H, hashes), None,
             latest.totalSize, latest.dedupSize, |hashes|, 0,
             now, None, None, None, latest.files, [])
  }

  function Synthesize(H: Hasher, st: State, latest: Option<nat>): Result<State, SynthesisError>
    requires latest.Some? ==> latest.value in st.snaps
  {
    if latest.None? then Err(NoSnapshots)
    else if st.snaps[latest.value].files == [] then Err(NoFileRecords)
    else Ok(st.(snaps := st.snaps[st.nextId := SyntheticSnapshot(H, st.snaps[latest.value], st.now)],
                nextId := st.nextId + 1))
  }

  method SynthesizeFullBackup(db: Database, source: nat) returns (r: Result<nat, SynthesisError>, latest: Option<nat>)
    modifies db
    ensures IsLatest(old(db.snaps), source, latest)
    ensures match Synthesize(db.cas.env.hasher, old(db.Current()), latest)
            case Ok(st) => r == Ok(old(db.nextId)) && db.Current() == st
            case Err(e) => r == Err(e) && db.Current() == old(db.Current())
    ensures r == Err(NoSnapshots) <==> latest.None?
    ensures r == Err(NoFileRecords) <==> latest.Some? && old(db.snaps)[latest.value].files == []
  {
    latest := db.QueryLatest(source);
    if latest.None? {
      return Err(NoSnapshots), latest;
    }
    var snapshot := db.snaps[latest.value];
    if snapshot.files == [] {
      return Err(NoFileRecords), latest;
    }
    var tree := Merkle.BuildTree(db.cas.env.hasher, AllHashes(snapshot.files));
    var files: seq<FileRecord> := [];
    for i := 0 to |snapshot.files|
      invariant files == snapshot.files[..i]
    {
      files := files + [snapshot.files[i]];
    }
    assert files == snapshot.files;
    var synthetic := Snapshot(source, Merkle.RootHash(db.cas.env.hasher, tree), None,
                              snapshot.totalSize, snapshot.dedupSize, |AllHashes(snapshot.files)|, 0,
                              db.now, None, None, None, files, []);
    r := Ok(db.nextId);
    db.snaps := db.snaps[db.nextId := synthetic];
    db.nextId := db.nextId + 1;
  }

  // ----- integrity verification -----

  predicate Due(s: Snapshot, now: int) {
    s.lastVerified.None? || s.lastVerified.value < now - VERIFY_INTERVAL
  }

  function Checked(H: Hasher, s: Snapshot, now: int): Snapshot {
    if s.files == [] then s
    else s.(lastVerified := Some(now), passed := Some(Merkle.Root(H, AllHashes(s.files)) == s.root))
  }

  function CheckSome(H: Hasher, snaps: Snapshots, ids: set<nat>, now: int): Snapshots {
    map id | id in snaps :: if id in ids then Checked(H, snaps[id], now) else snaps[id]
  }

  /** A check records the comparison of the stored root with the root of the manifests, and the
      time, for exactly the listed snapshots with files; it changes nothing else. */
  lemma CheckRecords(H: Hasher, snaps: Snapshots, ids: set<nat>, now: int, id: nat)
    requires id in snaps
    ensures var s, s' := snaps[id], CheckSome(H, snaps, ids, now)[id];
            if id in ids && s.files != [] then
              && s' == s.(lastVerified := Some(now), passed := s'.passed) && s'.passed.Some?
              && (s'.passed == Some(false) <==> Merkle.Root(H, AllHashes(s.files)) != s.root)
            else s' == s
  {
  }

  /** A snapshot that was sealed over one list of digests and now records another of equal
      length fails the next check that lists it. */
  lemma ResealedFailsCheck(H: Hasher, snaps: Snapshots, ids: set<nat>, now: int, id: nat, sealed: seq<Digest>)
    requires NodeInjective(H) && id in snaps && id in ids && snaps[id].files != []
    requires snaps[id].root == Merkle.Root(H, sealed)
    requires |AllHashes(snaps[id].files)| == |sealed| && AllHashes(snaps[id].files) != sealed
    ensures CheckSome(H, snaps, ids, now)[id].passed == Some(false)
  {
    Merkle.RootBindsList(H, AllHashes(snaps[id].files), sealed);
  }

  /** The newest due snapshots, at most a hundred of them. */
  ghost predicate NewestDue(snaps: Snapshots, now: int, ids: set<nat>) {
    && (forall id :: id in ids ==> id in snaps && Due(snaps[id], now))
    && |ids| <= VERIFY_LIMIT
    && forall other :: other in snaps && other !in ids && Due(snaps[other], now) ==>
         |ids| == VERIFY_LIMIT && forall id :: id in ids ==> snaps[other].created <= snaps[id].created
  }

  /** A check lists every due snapshot, never verified or not for more than seven days, or a
      hundred of them. */
  lemma ListsDue(snaps: Snapshots, now: int, ids: set<nat>)
    requires NewestDue(snaps, now, ids)
    ensures var due := set id | id in snaps && (snaps[id].lastVerified.None? || now - snaps[id].lastVerified.value > 604_800_000_000);
            if |due| <= 100 then ids == due else ids < due && |ids| == 100
  {
    var due := set id | id in snaps && (snaps[id].lastVerified.None? || now - snaps[id].lastVerified.value > 604_800_000_000);
    assert ids <= due;
    if |ids| == 100 {
      Smaller(ids, due);
    } else {
      assert ids == due;
    }
  }

  /** The check skips snapshots without files and leaves them due. A hundred of them that are
      newer than a snapshot keep it out of this check, and of the next ones as well. */
  lemma CrowdedOut(H: Hasher, snaps: Snapshots, now: int, ids: set<nat>, crowd: set<nat>, id: nat)
    requires NewestDue(snaps, now, ids) && |crowd| >= 100 && id in snaps
    requires forall c :: c in crowd ==>
               c in snaps && snaps[c].files == [] && snaps[c].lastVerified.None? && snaps[c].created > snaps[id].created
    ensures id !in ids
    ensures forall c :: c in crowd + {id} ==> CheckSome(H, snaps, ids, now)[c] == snaps[c]
  {
    if id in ids {
      assert forall c :: c in crowd ==> c in ids;
      Smaller(crowd + {id}, ids);
    }
  }

  method Latest(snaps: Snapshots, among: set<nat>) returns (latest: nat)
    requires among != {} && among <= snaps.Keys
    ensures latest in among && forall id :: id in among ==> snaps[id].created <= snaps[latest].created
  {
    latest :| latest in among;
    var rest := among - {latest};
    while rest != {}
      invariant rest <= among && latest in among
      invariant forall id :: id in among && id !in rest ==> snaps[id].created <= snaps[latest].created
      decreases |rest|
    {
      var id :| id in rest;
      if snaps[latest].created < snaps[id].created {
        latest := id;
      }
      rest := rest - {id};
    }
  }

  /** `where(never verified or long ago).order_by(created_at.desc()).limit(100)` */
  method QueryDue(snaps: Snapshots, now: int) returns (ids: seq<nat>)
    ensures NewestDue(snaps, now, Elements(ids))
  {
    var due := set id | id in snaps && Due(snaps[id], now);
    ids := [];
    while due != {} && |ids| < VERIFY_LIMIT
      invariant |Elements(ids)| == |ids| <= VERIFY_LIMIT
      invariant forall id :: id in due <==> id in snaps && Due(snaps[id], now) && id !in Elements(ids)
      invariant forall id :: id in Elements(ids) ==> id in snaps && Due(snaps[id], now)
      invariant forall id, other :: id in Elements(ids) && other in due ==> snaps[other].created <= snaps[id].created
      decreases |due|
    {
      var id := Latest(snaps, due);
      due := due - {id};
      ElementsAppend(ids, [id]);
      assert Elements([id]) == {id};
      ids := ids + [id];
    }
  }

  lemma CheckOneMore(H: Hasher, snaps: Snapshots, ids: set<nat>, id: nat, now: int)
    requires id in snaps
    ensures CheckSome(H, snaps, ids, now)[id := Checked(H, snaps[id], now)] == CheckSome(H, snaps, ids + {id}, now)
  {
  }

  method VerifySnapshotIntegrity(db: Database) returns (ghost checked: set<nat>)
    modifies db`snaps
    ensures NewestDue(old(db.snaps), db.now, checked)
    ensures db.snaps == CheckSome(db.cas.env.hasher, old(db.snaps), checked, db.now)
  {
    ghost var snaps, H := db.snaps, db.cas.env.hasher;
    var due := QueryDue(db.snaps, db.now);
    for i := 0 to |due|
      invariant db.snaps == CheckSome(H, snaps, Elements(due[..i]), db.now)
    {
      var id := due[i];
      assert id in Elements(due);
      ElementsAppend(due[..i], [id]);
      assert due[..i + 1] == due[..i] + [id] && Elements([id]) == {id};
      CheckOneMore(H, snaps, Elements(due[..i]), id, db.now);
      var snapshot := db.snaps[id];
      assert Checked(H, snapshot, db.now) == Checked(H, snaps[id], db.now);
      if snapshot.files == [] {
        continue;
      }
      var tree := Merkle.BuildTree(db.cas.env.hasher, AllHashes(snapshot.files));
      var isValid := Merkle.RootHash(db.cas.env.hasher, tree) == snapshot.root;
      db.snaps := db.snaps[id := snapshot.(lastVerified := Some(db.now), passed := Some(isValid))];
    }
    assert due[..|due|] == due;
    checked := Elements(due);
  }

  // ----- locks -----

  function SetLock(st: State, id: nat, until: Option<int>): State {
    if id !in st.snaps then st else st.(snaps := st.snaps[id := st.snaps[id].(lockedUntil := until)])
  }

  method LockSnapshot(db: Database, id: nat, duration: int) returns (found: bool)
    modifies db`snaps
    ensures found <==> id in old(db.snaps)
    ensures found ==> id in db.snaps && db.snaps[id].lockedUntil == Some(db.now + duration)
    ensures db.Current() == SetLock(old(db.Current()), id, Some(db.now + duration))
  {
    found := id in db.snaps;
    if found {
      db.snaps := db.snaps[id := db.snaps[id].(lockedUntil := Some(db.now + duration))];
    }
  }

  method UnlockSnapshot(db: Database, id: nat) returns (found: bool)
    modifies db`snaps
    ensures found <==> id in old(db.snaps)
    ensures found ==> id in db.snaps && db.snaps[id].lockedUntil == None
    ensures db.Current() == SetLock(old(db.Current()), id, None)
  {
    found := id in db.snaps;
    if found {
      db.snaps := db.snaps[id := db.snaps[id].(lockedUntil := None)];
    }
  }
}
