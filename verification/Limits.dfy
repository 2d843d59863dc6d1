/** Where the code falls short of its description, and by how much. */
module Limits {
  import opened Basics
  import opened Hashing
  import opened Cas
  import opened Records
  import opened BackupWorker
  import opened Accounting
  import opened Invariants
  import opened Runs
  import Cdc
  import Merkle
  import Pruner
  import Retention
  import RestoreWorker
  import Maintenance

  // ----- worlds that a run from an empty system reaches -----

  ghost predicate Reachable(env: Env, fk: bool, w: World) {
    exists steps :: ValidRun(env, fk, Start(0), steps) && Final(env, fk, Start(0), steps) == w
  }

  ghost predicate CarefullyReachable(env: Env, fk: bool, w: World) {
    exists steps :: ValidRun(env, fk, Start(0), steps) && CarefulRun(env, fk, Start(0), steps) && Final(env, fk, Start(0), steps) == w
  }

  lemma {:induction false} RunSnoc(env: Env, fk: bool, w: World, steps: seq<Step>, step: Step)
    requires ValidRun(env, fk, w, steps) && Allowed(env, fk, Final(env, fk, w, steps).st, step)
    ensures ValidRun(env, fk, w, steps + [step])
    ensures Final(env, fk, w, steps + [step]) == Next(env, fk, Final(env, fk, w, steps), step)
    ensures CarefulRun(env, fk, w, steps) && Careful(fk, Final(env, fk, w, steps).st, step) ==> CarefulRun(env, fk, w, steps + [step])
    decreases |steps|
  {
    if steps == [] {
      assert steps + [step] == [step];
      var w' := Next(env, fk, w, step);
      assert [step][1..] == [];
      assert ValidRun(env, fk, w', []) && Final(env, fk, w', []) == w' && CarefulRun(env, fk, w', []);
    } else {
      RunSnoc(env, fk, Next(env, fk, w, steps[0]), steps[1..], step);
      assert (steps + [step])[1..] == steps[1..] + [step];
    }
  }

  lemma StartReachable(env: Env, fk: bool)
    ensures Reachable(env, fk, Start(0)) && CarefullyReachable(env, fk, Start(0))
  {
    var steps: seq<Step> := [];
    assert ValidRun(env, fk, Start(0), steps) && CarefulRun(env, fk, Start(0), steps);
  }

  lemma NextReachable(env: Env, fk: bool, w: World, step: Step)
    requires Reachable(env, fk, w) && Allowed(env, fk, w.st, step)
    ensures Reachable(env, fk, Next(env, fk, w, step))
    ensures CarefullyReachable(env, fk, w) && Careful(fk, w.st, step) ==> CarefullyReachable(env, fk, Next(env, fk, w, step))
  {
    var steps :| ValidRun(env, fk, Start(0), steps) && Final(env, fk, Start(0), steps) == w;
    RunSnoc(env, fk, Start(0), steps, step);
    if CarefullyReachable(env, fk, w) && Careful(fk, w.st, step) {
      var careful :| ValidRun(env, fk, Start(0), careful) && CarefulRun(env, fk, Start(0), careful) && Final(env, fk, Start(0), careful) == w;
      RunSnoc(env, fk, Start(0), careful, step);
    }
  }

  lemma ReachableSound(env: Env, fk: bool, w: World)
    requires Assumptions(env)
    ensures Reachable(env, fk, w) ==> Sound(env, w)
    ensures CarefullyReachable(env, fk, w) ==> Sound(env, w) && Exact(w.st)
  {
    if Reachable(env, fk, w) {
      var steps :| ValidRun(env, fk, Start(0), steps) && Final(env, fk, Start(0), steps) == w;
      RunSound(env, fk, 0, steps);
    }
    if CarefullyReachable(env, fk, w) {
      var steps :| ValidRun(env, fk, Start(0), steps) && CarefulRun(env, fk, Start(0), steps) && Final(env, fk, Start(0), steps) == w;
      RunSound(env, fk, 0, steps);
      StartSound(env, 0);
      CarefulIsLossless(env, fk, Start(0), steps);
      RunExact(env, fk, Start(0), steps);
    }
  }

  // ----- the collector follows rows, restore follows manifests -----

  lemma FullSnapshot(env: Env, st: State, source: nat, files: seq<SourceFile>)
    requires Assumptions(env)
    ensures var s := BackupSnapshot(env, st, source, files, None, []);
            && s.source == source && s.created == st.now && s.parent == None && s.lockedUntil == None
            && s.files == Manifest(env.hasher, files) && RowSet(s) == ManifestSet(s)
            && AllHashes(s.files) == Digests(env.hasher, AllChunks(files))
  {
    RowsAreNewDigests(env, st, source, files, None, []);
    ManifestHashes(env.hasher, files);
  }

  /** A world with one full backup of some files with content. */
  ghost predicate OneBackup(env: Env, fk: bool, files: seq<SourceFile>, w: World) {
    && Reachable(env, fk, w) && CarefullyReachable(env, fk, w)
    && w.st.nextId == 2 && w.st.restoreJobs == {} && w.log == History(map[1 := files], {})
    && w.st.snaps.Keys == {1} && w.st.now == 1
    && var s := w.st.snaps[1];
       && s.source == 0 && s.parent == None && s.lockedUntil == None && s.created == 0
       && s.files == Manifest(env.hasher, files) && RowSet(s) == ManifestSet(s) && AllHashes(s.files) != []
  }

  lemma FirstWorld(env: Env, fk: bool, files: seq<SourceFile>) returns (w: World)
    requires Assumptions(env) && ReadableChunks(env, AllChunks(files)) && AllChunks(files) != []
    ensures OneBackup(env, fk, files, w)
  {
    var first := BackupStep(0, files, false, None, []);
    StartReachable(env, fk);
    NextReachable(env, fk, Start(0), first);
    var w1 := Next(env, fk, Start(0), first);
    FullSnapshot(env, Start(0).st, 0, files);
    NextReachable(env, fk, w1, TickStep(1));
    w := Next(env, fk, w1, TickStep(1));
  }

  ghost predicate OnlyFirstOlder(st: State) {
    && st.snaps.Keys == {1, 2} && st.restoreJobs == {} && st.now == 1
    && st.snaps[1].source == 0 && st.snaps[2].source == 0
    && st.snaps[1].created == 0 && st.snaps[2].created == 1
    && st.snaps[1].parent == None && st.snaps[1].lockedUntil == None
  }

  /** A reachable world with a second snapshot, one tick younger, whose rows name nothing. */
  ghost predicate RowlessSecond(env: Env, fk: bool, w: World) {
    && Reachable(env, fk, w) && CarefullyReachable(env, fk, w)
    && w.st.snaps.Keys == {1, 2} && RowSet(w.st.snaps[2]) == {} && AllHashes(w.st.snaps[2].files) != []
    && OnlyFirstOlder(w.st)
  }

  /** As soon as the retention has passed, the pruner deletes the first and keeps the second. */
  lemma FirstIsPruned(fk: bool, st: State, retention: nat) returns (atts: seq<Pruner.Attachment>, choices: seq<Pruner.Choice>)
    requires OnlyFirstOlder(st) && (fk ==> st.snaps[2].parent == None)
    ensures var late := st.(now := 1 + retention);
            Pruner.PassFits(fk, late, atts, choices)
            && Pruner.Pass(fk, late, choices) == Pruner.Outcome(Pruner.Drop(late, {1}), true)
  {
    var late, order := st.(now := 1 + retention), [1];
    atts, choices := [Pruner.Attachment(0, retention)], [Pruner.Choice(Some(2), order)];
    assert Pruner.Fits(late, atts[0], choices[0]) by {
      assert forall id :: id in order <==> id == 1;
    }
    assert !Pruner.StillBlocked(fk, late, order, 0);
    Pruner.ReachIsFirst(fk, late, order);
    Pruner.DeleteReaches(fk, late, order);
    assert order[..1] == [1] && Elements([1]) == {1};
    assert atts[1..] == [] && choices[1..] == [];
  }

  lemma OriginalGone(env: Env, st: State, log: History)
    requires Assumptions(env) && Inv(env, st, log) && Exact(st)
    requires st.snaps.Keys == {1, 2} && RowSet(st.snaps[2]) == {} && AllHashes(st.snaps[2].files) != []
    ensures var st' := Pruner.Drop(st, {1});
            && st'.snaps == map[2 := st.snaps[2]] && RestoreWorker.Restore(env, st', 2, None).Err?
  {
    var st' := Pruner.Drop(st, {1});
    DropKeeps(env, st, log, {1});
    var d := AllHashes(st'.snaps[2].files)[0];
    assert d in AllHashes(st'.snaps[2].files);
    assert d !in AllRows(st'.snaps);
    NoRecordsNoHashes();
    RestoresWhen(env, st', log, 2);
  }

  /** The retention passes and the pruner runs. */
  lemma LoseSecond(env: Env, fk: bool, w: World, retention: nat) returns (w': World)
    requires Assumptions(env) && RowlessSecond(env, fk, w) && (fk ==> w.st.snaps[2].parent == None)
    ensures Reachable(env, fk, w') && w'.st.snaps == map[2 := w.st.snaps[2]] && w'.log == w.log
    ensures RestoreWorker.Restore(env, w'.st, 2, None).Err?
    ensures fk ==> CarefullyReachable(env, fk, w')
  {
    NextReachable(env, fk, w, TickStep(retention));
    var late := Next(env, fk, w, TickStep(retention));
    var atts, choices := FirstIsPruned(fk, w.st, retention);
    assert late.st == w.st.(now := 1 + retention) && late.log == w.log;
    ReachableSound(env, fk, late);
    OriginalGone(env, late.st, late.log);
    Pruner.PassReaches(fk, late.st, choices);
    NextReachable(env, fk, late, PruneStep(atts, choices));
    w' := Next(env, fk, late, PruneStep(atts, choices));
  }

  lemma IncrementAllowed(env: Env, fk: bool, files: seq<SourceFile>, w: World)
    requires ReadableChunks(env, AllChunks(files)) && OneBackup(env, fk, files, w)
    ensures Allowed(env, fk, w.st, BackupStep(0, files, true, Some(1), RowHashes(w.st.snaps[1])))
  {
    var order := RowHashes(w.st.snaps[1]);
    ManifestHashes(env.hasher, files);
    assert IsLatest(w.st.snaps, 0, Some(1));
    Merkle.CoveredUnmasked(env.hasher, Digests(env.hasher, AllChunks(files)), order);
  }

  lemma UnchangedIncrement(env: Env, fk: bool, files: seq<SourceFile>, w: World) returns (w': World)
    requires Assumptions(env) && ReadableChunks(env, AllChunks(files)) && OneBackup(env, fk, files, w)
    ensures RowlessSecond(env, fk, w') && w'.log == History(map[1 := files, 2 := files], {})
  {
    var step := BackupStep(0, files, true, Some(1), RowHashes(w.st.snaps[1]));
    IncrementAllowed(env, fk, files, w);
    NextReachable(env, fk, w, step);
    RowsAreNewDigests(env, w.st, 0, files, Some(1), RowHashes(w.st.snaps[1]));
    w' := Next(env, fk, w, step);
  }

  /** Without foreign keys: full backup, unchanged increment, and, as soon as the retention has
      passed, a prune pass. The increment is still listed and cannot be restored. */
  lemma IncrementNeedsParent(env: Env, files: seq<SourceFile>, retention: nat)
    requires Assumptions(env) && ReadableChunks(env, AllChunks(files)) && AllChunks(files) != []
    ensures exists w :: Reachable(env, false, w) && 2 in w.st.snaps && w.log == History(map[1 := files, 2 := files], {})
              && RestoreWorker.Restore(env, w.st, 2, None).Err?
  {
    var first := FirstWorld(env, false, files);
    var second := UnchangedIncrement(env, false, files, first);
    var w := LoseSecond(env, false, second, retention);
  }

  lemma SynthesizeOnce(env: Env, files: seq<SourceFile>, w: World) returns (w': World)
    requires Assumptions(env) && OneBackup(env, true, files, w)
    ensures RowlessSecond(env, true, w') && w'.log == History(map[1 := files, 2 := files], {2})
    ensures w'.st.snaps[2] == Maintenance.SyntheticSnapshot(env.hasher, w.st.snaps[1], w.st.now)
  {
    NoRecordsNoHashes();
    assert IsLatest(w.st.snaps, 0, Some(1));
    assert Allowed(env, true, w.st, SynthesizeStep(0, 1));
    NextReachable(env, true, w, SynthesizeStep(0, 1));
    w' := Next(env, true, w, SynthesizeStep(0, 1));
    NoElements(RowHashes(Maintenance.SyntheticSnapshot(env.hasher, w.st.snaps[1], w.st.now)));
  }

  /** A check of a lone, never verified snapshot passes and does not look at the chunks. */
  lemma CheckedAlone(env: Env, w: World, s: Snapshot) returns (w': World)
    requires CarefullyReachable(env, true, w) && Reachable(env, true, w) && w.st.snaps == map[2 := s]
    requires s.lastVerified == None && s.files != [] && s.root == Merkle.Root(env.hasher, AllHashes(s.files))
    requires RestoreWorker.Restore(env, w.st, 2, None).Err?
    ensures CarefullyReachable(env, true, w') && w'.log == w.log && w'.st.snaps.Keys == {2}
    ensures w'.st.snaps[2].passed == Some(true) && RestoreWorker.Restore(env, w'.st, 2, None).Err?
  {
    assert Maintenance.NewestDue(w.st.snaps, w.st.now, {2});
    NextReachable(env, true, w, VerifyStep({2}));
    w' := Next(env, true, w, VerifyStep({2}));
  }

  /** With foreign keys: a full backup, a synthetic full from it, a prune pass as soon as the
      retention has passed, an integrity check. The run is careful, the synthetic full is
      listed, its check has passed, and it cannot be restored. */
  lemma SyntheticNeedsOriginal(env: Env, files: seq<SourceFile>, retention: nat)
    requires Assumptions(env) && ReadableChunks(env, AllChunks(files)) && AllChunks(files) != []
    ensures exists w :: CarefullyReachable(env, true, w) && 2 in w.st.snaps && w.log == History(map[1 := files, 2 := files], {2})
              && w.st.snaps[2].passed == Some(true) && RestoreWorker.Restore(env, w.st, 2, None).Err?
  {
    var first := FirstWorld(env, true, files);
    var second := SynthesizeOnce(env, files, first);
    var lost := LoseSecond(env, true, second, retention);
    NoRecordsNoHashes();
    var w := CheckedAlone(env, lost, second.st.snaps[2]);
  }

  // ----- a pass the database stops -----

  lemma RowOwner(st: State, log: History, d: Digest) returns (id: nat)
    requires Exact(st) && Coverage(st.snaps, log) && d in st.disk
    ensures id in st.snaps && d in Elements(AllHashes(st.snaps[id].files)) && st.snaps[id].files != []
  {
    assert d in AllRows(st.snaps);
    id :| id in st.snaps && d in RowSet(st.snaps[id]);
    assert Covered(st.snaps, id, log.synthetic);
    NoRecordsNoHashes();
  }

  lemma LostManifest(env: Env, st: State, log: History, disk: Disk) returns (id: nat)
    requires Exact(st) && Coverage(st.snaps, log) && Faithful(env, st.disk) && disk != st.disk
    requires OnlyRemoves(st.disk, disk)
    ensures id in st.snaps && RestoreWorker.Restore(env, st.(disk := disk), id, None).Err?
  {
    assert disk.Keys != st.disk.Keys;
    var d :| d in st.disk && d !in disk;
    id := RowOwner(st, log, d);
    FaithfulSubset(env, st.disk, disk);
    RestoreNeedsChunks(env, st.(disk := disk), id);
  }

  /** A stopped pass leaves the state as it was if and only if it spares chunks; otherwise some
      snapshot is back in the database and can no longer be restored. */
  lemma StoppedPassWhen(env: Env, fk: bool, st: State, log: History, choices: seq<Pruner.Choice>)
    requires Assumptions(env) && Inv(env, st, log) && Exact(st) && !Pruner.Pass(fk, st, choices).completed
    ensures Pruner.Prune(fk, st, choices) == st <==> Pruner.Spares(fk, st, choices)
    ensures !Pruner.Spares(fk, st, choices) ==>
              exists id :: id in Pruner.Prune(fk, st, choices).snaps
                && RestoreWorker.Restore(env, Pruner.Prune(fk, st, choices), id, None).Err?
  {
    PassShrinks(fk, st, choices);
    PruneExactWhen(fk, st, choices);
    var st' := Pruner.Prune(fk, st, choices);
    assert st' == st.(disk := st'.disk);
    if st'.disk == st.disk {
      assert Exact(st');
    } else {
      var id := LostManifest(env, st, log, st'.disk);
    }
  }

  /** Three expired or kept full backups of one source, the second named by a restore job. */
  ghost predicate ThreeFulls(st: State) {
    && st.snaps.Keys == {1, 2, 3} && st.restoreJobs == {2} && st.now == 3
    && forall id :: id in st.snaps ==>
         st.snaps[id].source == 0 && st.snaps[id].parent == None && st.snaps[id].lockedUntil == None
         && st.snaps[id].created == id - 1
  }

  /** A policy with a retention of one deletes the first and is stopped at the second. */
  lemma StoppedAtSecond(st: State) returns (atts: seq<Pruner.Attachment>, choices: seq<Pruner.Choice>)
    requires ThreeFulls(st)
    ensures Pruner.PassFits(true, st, atts, choices)
    ensures Pruner.Pass(true, st, choices) == Pruner.Outcome(Pruner.Drop(st, {1}), false)
  {
    var order := [1, 2];
    atts, choices := [Pruner.Attachment(0, 1)], [Pruner.Choice(Some(3), order)];
    assert Pruner.Fits(st, atts[0], choices[0]) by {
      assert forall id :: id in order <==> id == 1 || id == 2;
    }
    assert order[..1] == [1] && Elements([1]) == {1};
    Retention.ReachIs(true, st, order, 1);
    Pruner.DeleteReaches(true, st, order);
    assert atts[1..] == [] && choices[1..] == [];
  }

  /** The chunks of three full backups, after the first is gone, are those of the other two. */
  lemma FirstDropped(st: State)
    requires ThreeFulls(st) && Exact(st)
    ensures Pruner.Drop(st, {1}).disk.Keys == RowSet(st.snaps[2]) + RowSet(st.snaps[3])
  {
    var left := st.snaps - {1};
    Pruner.AllRowsSplit(st.snaps, {1});
    assert left.Keys == {2, 3} && left[2] == st.snaps[2] && left[3] == st.snaps[3];
    forall d | d in RowSet(st.snaps[2]) + RowSet(st.snaps[3])
      ensures d in AllRows(left)
    {
      assert if d in RowSet(left[2]) then 2 in left else 3 in left && d in RowSet(left[3]);
    }
    assert AllRows(left) == RowSet(st.snaps[2]) + RowSet(st.snaps[3]);
  }

  /** A full backup of source 0, with a row for every digest. */
  ghost predicate IsFullOf(env: Env, files: seq<SourceFile>, time: int, s: Snapshot) {
    && s.source == 0 && s.parent == None && s.lockedUntil == None && s.created == time
    && s.files == Manifest(env.hasher, files)
    && RowSet(s) == Elements(Digests(env.hasher, AllChunks(files)))
  }

  /** One full backup after the other, a clock tick apart. */
  ghost predicate Fulls(env: Env, w: World, taken: seq<seq<SourceFile>>) {
    && w.st.nextId == |taken| + 1 && w.st.now == |taken| && w.st.restoreJobs == {} && w.log.synthetic == {}
    && (forall id :: id in w.st.snaps <==> 1 <= id <= |taken|)
    && (forall id :: id in w.log.content <==> 1 <= id <= |taken|)
    && forall i :: 0 <= i < |taken| ==> w.log.content[i + 1] == taken[i] && IsFullOf(env, taken[i], i, w.st.snaps[i + 1])
  }

  lemma FullsSnoc(env: Env, w: World, taken: seq<seq<SourceFile>>, files: seq<SourceFile>, w': World, s: Snapshot)
    requires Fulls(env, w, taken)
    requires IsFullOf(env, files, |taken|, s) && w'.st.snaps == w.st.snaps[|taken| + 1 := s]
    requires w'.st.nextId == |taken| + 2 && w'.st.now == |taken| + 1 && w'.st.restoreJobs == {}
    requires w'.log == History(w.log.content[|taken| + 1 := files], {})
    ensures Fulls(env, w', taken + [files])
  {
    var more := taken + [files];
    forall i | 0 <= i < |more|
      ensures w'.log.content[i + 1] == more[i] && IsFullOf(env, more[i], i, w'.st.snaps[i + 1])
    {
      assert i < |taken| ==> w.log.content[i + 1] == taken[i] && IsFullOf(env, taken[i], i, w.st.snaps[i + 1]);
    }
  }

  lemma OneMoreFull(env: Env, w: World, taken: seq<seq<SourceFile>>, files: seq<SourceFile>) returns (w': World)
    requires Assumptions(env) && Reachable(env, true, w) && CarefullyReachable(env, true, w)
    requires Fulls(env, w, taken) && ReadableChunks(env, AllChunks(files))
    ensures Reachable(env, true, w') && CarefullyReachable(env, true, w') && Fulls(env, w', taken + [files])
  {
    var step := BackupStep(0, files, false, None, []);
    NextReachable(env, true, w, step);
    var w1 := Next(env, true, w, step);
    FullSnapshot(env, w.st, 0, files);
    NextReachable(env, true, w1, TickStep(1));
    w' := Next(env, true, w1, TickStep(1));
    FullsSnoc(env, w, taken, files, w', BackupSnapshot(env, w.st, 0, files, None, []));
  }

  lemma {:induction false} FullRun(env: Env, taken: seq<seq<SourceFile>>) returns (w: World)
    requires Assumptions(env) && forall i :: 0 <= i < |taken| ==> ReadableChunks(env, AllChunks(taken[i]))
    ensures Reachable(env, true, w) && CarefullyReachable(env, true, w) && Fulls(env, w, taken)
    decreases |taken|
  {
    if taken == [] {
      StartReachable(env, true);
      w := Start(0);
    } else {
      var front, last := taken[..|taken| - 1], taken[|taken| - 1];
      var before := FullRun(env, front);
      w := OneMoreFull(env, before, front, last);
      assert taken == front + [last];
    }
  }

  lemma FullAt(env: Env, w: World, taken: seq<seq<SourceFile>>, i: nat, files: seq<SourceFile>)
    requires Fulls(env, w, taken) && i < |taken| && files == taken[i]
    ensures i + 1 in w.st.snaps && IsFullOf(env, files, i, w.st.snaps[i + 1])
    ensures i + 1 in w.log.content && w.log.content[i + 1] == files
  {
  }

  lemma ThreeLogged(env: Env, w: World, a: seq<SourceFile>, b: seq<SourceFile>, c: seq<SourceFile>)
    requires Fulls(env, w, [a, b, c])
    ensures w.log == History(map[1 := a, 2 := b, 3 := c], {})
  {
    FullAt(env, w, [a, b, c], 0, a);
    FullAt(env, w, [a, b, c], 1, b);
    FullAt(env, w, [a, b, c], 2, c);
    assert w.log.content == map[1 := a, 2 := b, 3 := c];
  }

  /** The three snapshots, seen as three sets of rows. */
  lemma ThreeSeen(env: Env, w: World, a: seq<SourceFile>, b: seq<SourceFile>, c: seq<SourceFile>, st: State)
    requires Fulls(env, w, [a, b, c]) && st == w.st.(restoreJobs := {2})
    ensures ThreeFulls(st)
    ensures RowSet(st.snaps[2]) == Elements(Digests(env.hasher, AllChunks(b)))
    ensures RowSet(st.snaps[3]) == Elements(Digests(env.hasher, AllChunks(c)))
  {
    FullAt(env, w, [a, b, c], 0, a);
    FullAt(env, w, [a, b, c], 1, b);
    FullAt(env, w, [a, b, c], 2, c);
  }

  lemma StopAfterFirst(env: Env, w: World) returns (w': World)
    requires Assumptions(env) && Reachable(env, true, w) && CarefullyReachable(env, true, w) && ThreeFulls(w.st)
    ensures Reachable(env, true, w') && w'.log == w.log && w'.st.snaps == w.st.snaps
    ensures w'.st.disk.Keys == RowSet(w.st.snaps[2]) + RowSet(w.st.snaps[3])
  {
    var atts, choices := StoppedAtSecond(w.st);
    ReachableSound(env, true, w);
    FirstDropped(w.st);
    NextReachable(env, true, w, PruneStep(atts, choices));
    w' := Next(env, true, w, PruneStep(atts, choices));
  }

  lemma FirstBack(env: Env, w: World, a: seq<SourceFile>)
    requires Assumptions(env) && Sound(env, w) && a != [] && 1 in w.st.snaps && 1 in w.log.content && w.log.content[1] == a
    ensures RestoreWorker.Restore(env, w.st, 1, None).Ok? <==> Elements(Digests(env.hasher, AllChunks(a))) <= w.st.disk.Keys
  {
    ManifestHashes(env.hasher, a);
    RestoresWhen(env, w.st, w.log, 1);
    assert forall d :: d in AllHashes(w.st.snaps[1].files) <==> d in Elements(Digests(env.hasher, AllChunks(a)));
  }

  lemma ThreeTaken(env: Env, a: seq<SourceFile>, b: seq<SourceFile>, c: seq<SourceFile>) returns (w: World)
    requires Assumptions(env)
    requires ReadableChunks(env, AllChunks(a)) && ReadableChunks(env, AllChunks(b)) && ReadableChunks(env, AllChunks(c))
    ensures Reachable(env, true, w) && CarefullyReachable(env, true, w) && ThreeFulls(w.st)
    ensures w.log == History(map[1 := a, 2 := b, 3 := c], {})
    ensures RowSet(w.st.snaps[2]) == Elements(Digests(env.hasher, AllChunks(b)))
    ensures RowSet(w.st.snaps[3]) == Elements(Digests(env.hasher, AllChunks(c)))
  {
    var fulls := FullRun(env, [a, b, c]);
    NextReachable(env, true, fulls, RestoreRequest(2));
    w := Next(env, true, fulls, RestoreRequest(2));
    ThreeLogged(env, fulls, a, b, c);
    ThreeSeen(env, fulls, a, b, c, w.st);
  }

  /** With foreign keys: three full backups, a restore job for the second, and a pass that
      deletes the first before the database stops it. The first snapshot is listed again, and
      restores if and only if the other two hold all its chunks. */
  lemma StoppedPassReached(env: Env, a: seq<SourceFile>, b: seq<SourceFile>, c: seq<SourceFile>)
    requires Assumptions(env) && a != []
    requires ReadableChunks(env, AllChunks(a)) && ReadableChunks(env, AllChunks(b)) && ReadableChunks(env, AllChunks(c))
    ensures exists w :: Reachable(env, true, w) && w.log == History(map[1 := a, 2 := b, 3 := c], {}) && w.st.snaps.Keys == {1, 2, 3}
              && (RestoreWorker.Restore(env, w.st, 1, None).Ok? <==>
                    Elements(Digests(env.hasher, AllChunks(a)))
                    <= Elements(Digests(env.hasher, AllChunks(b))) + Elements(Digests(env.hasher, AllChunks(c))))
  {
    var before := ThreeTaken(env, a, b, c);
    var w := StopAfterFirst(env, before);
    ReachableSound(env, true, w);
    FirstBack(env, w, a);
  }

  // ----- a chunk that starts like a compressed one -----

  lemma OneSmallFile(path: string, x: Bytes)
    requires 0 < |x| <= Cdc.MIN_CHUNK
    ensures AllChunks([SourceFile(path, x)]) == [x]
  {
    Cdc.SingleChunk(x);
    AllChunksSnoc([], SourceFile(path, x));
    assert [] + [SourceFile(path, x)] == [SourceFile(path, x)];
  }

  lemma OnlyChunkStored(env: Env, x: Bytes)
    requires !Compresses(env, env.entropyOf(x))
    ensures StoreAll(env, map[], [x]) == map[env.hasher.chunk(x) := x]
  {
    assert [x][..0] == [];
  }

  lemma OneChunkRead(env: Env, disk: Disk, d: Digest)
    ensures RestoreWorker.Reassemble(env, disk, [d]) == Fetch(env, disk, d)
  {
    assert [d][..0] == [];
    assert RestoreWorker.Reassemble(env, disk, [d][..0]) == Ok([]);
    if Fetch(env, disk, d).Ok? {
      var data := Fetch(env, disk, d).value;
      assert [] + data == data;
    }
  }

  lemma OneFileWritten(env: Env, disk: Disk, f: FileRecord, d: Digest)
    requires f.hashes == [d]
    ensures AllHashes([f]) == [d]
    ensures RestoreWorker.WriteFiles(env, disk, [f]) ==
              match Fetch(env, disk, d)
              case Ok(data) => Ok(map[f.path := data])
              case Err(e) => Err(e)
  {
    assert [f][..0] == [];
    assert RestoreWorker.WriteFiles(env, disk, [f][..0]) == Ok(map[]);
    OneChunkRead(env, disk, d);
    RestoreWorker.AllHashesSnoc([], f);
    assert [] + [f] == [f];
  }

  /** Restoring a snapshot of one file with one chunk yields that chunk or fails. */
  lemma OneRecordRestored(env: Env, st: State, path: string, d: Digest, size: nat)
    requires 1 in st.snaps && st.snaps[1].files == [FileRecord(path, size, [d])]
    requires st.snaps[1].root == Merkle.Root(env.hasher, [d])
    ensures RestoreWorker.Restore(env, st, 1, None) ==
              match Fetch(env, st.disk, d)
              case Ok(data) => Ok(map[path := data])
              case Err(e) => Err(RestoreWorker.ChunkUnreadable(e))
  {
    OneFileWritten(env, st.disk, st.snaps[1].files[0], d);
    assert st.snaps[1].files == [st.snaps[1].files[0]];
  }

  /** A small file that is stored raw although it starts with the zstd magic, as a compressed
      file does: its backup restores if and only if it is a frame of itself. */
  lemma RawFrameRestoresWhen(env: Env, path: string, x: Bytes)
    requires 0 < |x| <= Cdc.MIN_CHUNK && StartsWithMagic(x) && !Compresses(env, env.entropyOf(x))
    ensures var st := Backup(env, Start(0).st, 0, [SourceFile(path, x)], None, []);
            RestoreWorker.Restore(env, st, 1, None) == Ok(Directory([SourceFile(path, x)]))
            <==> env.haveZstd && env.decompress(x) == Some(x)
  {
    var H, files := env.hasher, [SourceFile(path, x)];
    var st := Backup(env, Start(0).st, 0, files, None, []);
    OneSmallFile(path, x);
    Cdc.SingleChunk(x);
    assert Digests(H, [x]) == [H.chunk(x)];
    assert Manifest(H, files) == [FileRecord(path, |x|, [H.chunk(x)])];
    OnlyChunkStored(env, x);
    OneRecordRestored(env, st, path, H.chunk(x), |x|);
    assert files[..0] == [] && Directory(files) == map[path := x];
    assert Fetch(env, st.disk, H.chunk(x)) == Decode(env, x);
    if Decode(env, x).Ok? {
      var data := Decode(env, x).value;
      var tree: RestoreWorker.Tree := map[path := data];
      assert tree[path] == data && Directory(files)[path] == x;
    }
  }

  // ----- a chunk with the digest of an inner node -----

  /** Two small files, and a later one whose digest is that of the node above the two. */
  ghost predicate Colliding(env: Env, c1: Bytes, c2: Bytes, x: Bytes) {
    var H := env.hasher;
    && 0 < |c1| <= Cdc.MIN_CHUNK && 0 < |c2| <= Cdc.MIN_CHUNK && 0 < |x| <= Cdc.MIN_CHUNK
    && ReadableChunks(env, [c1, c2, x])
    && H.chunk(x) == H.node(H.chunk(c1), H.chunk(c2)) && H.chunk(x) != H.chunk(c1) && H.chunk(x) != H.chunk(c2)
  }

  lemma TwoRows(env: Env, st: State, files: seq<SourceFile>, c1: Bytes, c2: Bytes)
    requires AllChunks(files) == [c1, c2]
    ensures var s, H := BackupSnapshot(env, st, 0, files, None, []), env.hasher;
            s.source == 0 && RowHashes(s) == [H.chunk(c1), H.chunk(c2)] && RowSet(s) == {H.chunk(c1), H.chunk(c2)}
  {
    var s, H := BackupSnapshot(env, st, 0, files, None, []), env.hasher;
    var wanted, disk := Elements(Digests(H, [c1, c2])), StoreAll(env, st.disk, [c1, c2]);
    assert Digests(H, [c1, c2]) == [H.chunk(c1), H.chunk(c2)];
    assert [c1, c2][..1] == [c1] && [c1][..0] == [];
    assert RowsFor(env, disk, [c1], wanted) == [Row(env, disk, c1)];
    assert RowsFor(env, disk, [c1, c2], wanted) == [Row(env, disk, c1), Row(env, disk, c2)];
    assert RowHashes(s)[0] == H.chunk(c1) && RowHashes(s)[1] == H.chunk(c2);
  }

  lemma TwoSmallFiles(env: Env, c1: Bytes, c2: Bytes) returns (files: seq<SourceFile>)
    requires 0 < |c1| <= Cdc.MIN_CHUNK && 0 < |c2| <= Cdc.MIN_CHUNK
    ensures AllChunks(files) == [c1, c2]
  {
    files := [SourceFile("a", c1)] + [SourceFile("b", c2)];
    Cdc.SingleChunk(c1);
    Cdc.SingleChunk(c2);
    AllChunksSnoc([], SourceFile("a", c1));
    assert [] + [SourceFile("a", c1)] == [SourceFile("a", c1)];
    AllChunksSnoc([SourceFile("a", c1)], SourceFile("b", c2));
  }

  /** A chunk that a snapshot needs and no row protects. */
  ghost predicate Uncovered(st: State, id: nat, d: Digest) {
    id in st.snaps && d in st.disk && d in AllHashes(st.snaps[id].files) && !Referenced(st.snaps, d)
  }

  lemma NotReportedNew(env: Env, c1: Bytes, c2: Bytes, x: Bytes)
    requires Colliding(env, c1, c2, x)
    ensures var H := env.hasher; NewHashes(H, Digests(H, [x]), Some([H.chunk(c1), H.chunk(c2)])) == {}
  {
    var H := env.hasher;
    assert Digests(H, [x]) == [H.node(H.chunk(c1), H.chunk(c2))];
    Merkle.DiffMissesNodeValue(H, H.chunk(c1), H.chunk(c2));
  }

  lemma NothingNewNoRows(env: Env, st: State, source: nat, files: seq<SourceFile>, prev: nat, order: seq<Digest>)
    requires NewHashes(env.hasher, Digests(env.hasher, AllChunks(files)), Some(order)) == {}
    ensures RowSet(BackupSnapshot(env, st, source, files, Some(prev), order)) == {}
  {
    RowsForHashes(env, StoreAll(env, st.disk, AllChunks(files)), AllChunks(files), {});
    RowSetIs(BackupSnapshot(env, st, source, files, Some(prev), order), {});
  }

  lemma OneChunkStored(env: Env, st: State, files: seq<SourceFile>, x: Bytes, prev: nat, order: seq<Digest>)
    requires AllChunks(files) == [x]
    ensures var st', d := Backup(env, st, 0, files, Some(prev), order), env.hasher.chunk(x);
            d in st'.disk && AllHashes(st'.snaps[st.nextId].files) == [d]
  {
    ManifestHashes(env.hasher, files);
    StoreAllKeys(env, st.disk, [x]);
    assert Digests(env.hasher, [x])[0] in Elements(Digests(env.hasher, [x]));
  }

  lemma CollidingIncrement(env: Env, c1: Bytes, c2: Bytes, x: Bytes, st: State)
    requires Colliding(env, c1, c2, x) && st.snaps.Keys == {1} && st.nextId == 2
    requires RowSet(st.snaps[1]) == {env.hasher.chunk(c1), env.hasher.chunk(c2)}
    ensures var H := env.hasher;
            Uncovered(Backup(env, st, 0, [SourceFile("a", x)], Some(1), [H.chunk(c1), H.chunk(c2)]), 2, H.chunk(x))
  {
    var H, files := env.hasher, [SourceFile("a", x)];
    OneSmallFile("a", x);
    NotReportedNew(env, c1, c2, x);
    NothingNewNoRows(env, st, 0, files, 1, [H.chunk(c1), H.chunk(c2)]);
    OneChunkStored(env, st, files, x, 1, [H.chunk(c1), H.chunk(c2)]);
  }

  lemma TwoFilesTaken(env: Env, c1: Bytes, c2: Bytes) returns (w: World)
    requires 0 < |c1| <= Cdc.MIN_CHUNK && 0 < |c2| <= Cdc.MIN_CHUNK && ReadableChunks(env, [c1, c2])
    ensures Reachable(env, true, w) && w.st.snaps.Keys == {1} && w.st.nextId == 2 && w.st.snaps[1].source == 0
    ensures RowHashes(w.st.snaps[1]) == [env.hasher.chunk(c1), env.hasher.chunk(c2)]
    ensures RowSet(w.st.snaps[1]) == {env.hasher.chunk(c1), env.hasher.chunk(c2)}
  {
    var files := TwoSmallFiles(env, c1, c2);
    StartReachable(env, true);
    NextReachable(env, true, Start(0), BackupStep(0, files, false, None, []));
    w := Next(env, true, Start(0), BackupStep(0, files, false, None, []));
    TwoRows(env, Start(0).st, files, c1, c2);
  }

  /** After a full backup of the two files, an increment with only the later one stores its
      chunk, lists it in the manifest, and writes no row for it. */
  lemma CollidingChunkBreaksCoverage(env: Env, c1: Bytes, c2: Bytes, x: Bytes)
    requires Colliding(env, c1, c2, x)
    ensures ReadableChunks(env, AllChunks([SourceFile("a", x)]))
    ensures exists w, order :: Reachable(env, true, w) && Answers(w.st.snaps, 0, true, Some(1), order)
              && Uncovered(Backup(env, w.st, 0, [SourceFile("a", x)], Some(1), order), 2, env.hasher.chunk(x))
  {
    OneSmallFile("a", x);
    assert x in [c1, c2, x] && forall c :: c in [c1, c2] ==> c in [c1, c2, x];
    var w := TwoFilesTaken(env, c1, c2);
    CollidingIncrement(env, c1, c2, x, w.st);
    assert Answers(w.st.snaps, 0, true, Some(1), [env.hasher.chunk(c1), env.hasher.chunk(c2)]);
  }

  /** A hasher that gives the chunk x the digest of the node over two others. */
  function Redirected(c1: Bytes, c2: Bytes, x: Bytes): Hasher {
    var F := FreeHasher();
    F.(chunk := (data: Bytes) => if data == x then F.node(F.chunk(c1), F.chunk(c2)) else F.chunk(data))
  }

  lemma RedirectedIsInjective(c1: Bytes, c2: Bytes, x: Bytes)
    requires x != c1 && x != c2
    ensures NodeInjective(Redirected(c1, c2, x)) && ChunkInjective(Redirected(c1, c2, x))
  {
    var F, H := FreeHasher(), Redirected(c1, c2, x);
    FreeHasherIsCollisionFree();
    forall l, r, l', r' | H.node(l, r) == H.node(l', r')
      ensures l == l' && r == r'
    {
      assert F.node(l, r) == F.node(l', r');
    }
    forall a, b | H.chunk(a) == H.chunk(b)
      ensures a == b
    {
      assert F.chunk(a)[0] == 'c' && F.chunk(b)[0] == 'c' && F.node(F.chunk(c1), F.chunk(c2))[0] == 'n';
      assert F.chunk(a) == F.chunk(b) ==> a == b;
    }
  }

  /** The plain codec of the free examples: every chunk is compressed, by putting the magic before it. */
  function FreeEnv(H: Hasher): Env {
    Env(H, b => 0.0, true, (b: Bytes) => ZSTD_MAGIC + b, (b: Bytes) => if |b| >= 4 then Some(b[4..]) else None)
  }

  lemma FreeEnvIsLawful(H: Hasher)
    ensures ZstdLaws(FreeEnv(H)) && forall b :: Readable(FreeEnv(H), b, FreeEnv(H).entropyOf(b))
  {
    forall b
      ensures StartsWithMagic(FreeEnv(H).compress(b)) && FreeEnv(H).decompress(FreeEnv(H).compress(b)) == Some(b)
    {
      assert (ZSTD_MAGIC + b)[4..] == b;
    }
  }

  /** The assumptions about the hash and the codec can be met together. */
  lemma AssumptionsCanHold() returns (env: Env)
    ensures Assumptions(env) && CollisionFree(env.hasher)
  {
    env := FreeEnv(FreeHasher());
    FreeHasherIsCollisionFree();
    FreeEnvIsLawful(env.hasher);
  }

  /** Why a backup must be suitable: all the other hypotheses of the runs can hold, and an
      increment still leaves a chunk that its manifest needs without a row. */
  lemma SuitabilityIsNeeded() returns (env: Env, x: Bytes)
    ensures Assumptions(env) && ReadableChunks(env, AllChunks([SourceFile("a", x)]))
    ensures exists w, order :: Reachable(env, true, w) && Answers(w.st.snaps, 0, true, Some(1), order)
              && Uncovered(Backup(env, w.st, 0, [SourceFile("a", x)], Some(1), order), 2, env.hasher.chunk(x))
  {
    var c1: Bytes, c2: Bytes := [0], [1];
    x := [2];
    env := FreeEnv(Redirected(c1, c2, x));
    RedirectedIsInjective(c1, c2, x);
    FreeEnvIsLawful(env.hasher);
    CollidingChunkBreaksCoverage(env, c1, c2, x);
  }

  lemma SpelledIsReadable(env: Env, x: Bytes)
    requires HexPair(x)
    ensures Readable(env, x, env.entropyOf(x))
  {
    assert HexDigit(x[0]);
  }

  /** A file that spells two digests in hex is such a chunk, for every hash of the digits. */
  lemma SpelledChunkCollides(env: Env, sha: Bytes -> Digest, hex: Digest -> Bytes, c1: Bytes, c2: Bytes, x: Bytes)
    requires env.hasher == FromSha(sha, hex)
    requires forall d :: |hex(d)| == 64 && forall i :: 0 <= i < 64 ==> HexDigit(hex(d)[i])
    requires 0 < |c1| <= Cdc.MIN_CHUNK && 0 < |c2| <= Cdc.MIN_CHUNK && ReadableChunks(env, [c1, c2])
    requires x == hex(sha(c1)) + hex(sha(c2)) && sha(x) != sha(c1) && sha(x) != sha(c2)
    ensures Colliding(env, c1, c2, x)
  {
    SpelledDigestsCollide(sha, hex, sha(c1), sha(c2));
    SpelledIsReadable(env, x);
    assert forall c :: c in [c1, c2, x] ==> c in [c1, c2] || c == x;
  }
}
