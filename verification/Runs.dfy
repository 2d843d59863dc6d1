/** Whole runs: any number of jobs on any number of sources, one at a time. */
module Runs {
  import opened Basics
  import opened Hashing
  import opened Cas
  import opened Records
  import opened BackupWorker
  import opened Accounting
  import opened Invariants
  import Merkle
  import Pruner
  import RestoreWorker
  import Maintenance

  /** The system state together with what an observer of the run has written down: the files
      behind every snapshot, the sum of the dedup sizes of all backups, and the raw bytes
      of the chunks that the collector removed. */
  datatype World = World(st: State, log: History, recorded: nat, collected: nat)

  /** What has happened, with the answers the queries got. All but DeleteStep and TickStep are
      jobs of the system; DeleteStep stands for an operator who deletes a snapshot, as the
      chain view advises on, in the way the pruner does. */
  datatype Step =
    | BackupStep(source: nat, files: seq<SourceFile>, incremental: bool, prev: Option<nat>, order: seq<Digest>)
    | PruneStep(atts: seq<Pruner.Attachment>, choices: seq<Pruner.Choice>)
    | DeleteStep(id: nat)
    | SynthesizeStep(source: nat, latest: nat)
    | VerifyStep(ids: set<nat>)
    | LockStep(id: nat, until: Option<int>)
    | RestoreRequest(id: nat)
    | TickStep(time: int)

  function Start(now: int): World {
    World(State(map[], map[], {}, 1, now), History(map[], {}), 0, 0)
  }

  /** A job of this kind may run in this state with these query answers. A prune pass may
      also be stopped by the database; the clock may stand still or be set back. */
  ghost predicate Allowed(env: Env, fk: bool, st: State, step: Step) {
    match step
    case BackupStep(source, files, incremental, prev, order) =>
      Answers(st.snaps, source, incremental, prev, order) && Suitable(env, files, prev, order)
    case PruneStep(atts, choices) => Pruner.PassFits(fk, st, atts, choices)
    case DeleteStep(id) => id in st.snaps && !(fk && Pruner.Blocked(st, id))
    case SynthesizeStep(source, latest) =>
      IsLatest(st.snaps, source, Some(latest)) && Maintenance.Synthesize(env.hasher, st, Some(latest)).Ok?
    case VerifyStep(ids) => Maintenance.NewestDue(st.snaps, st.now, ids)
    case _ => true
  }

  ghost function After(env: Env, fk: bool, st: State, step: Step): State
    requires Allowed(env, fk, st, step)
  {
    match step
    case BackupStep(source, files, _, prev, order) => Backup(env, st, source, files, prev, order)
    case PruneStep(_, choices) => Pruner.Prune(fk, st, choices)
    case DeleteStep(id) => Pruner.Drop(st, {id})
    case SynthesizeStep(_, latest) => Maintenance.Synthesize(env.hasher, st, Some(latest)).value
    case VerifyStep(ids) => st.(snaps := Maintenance.CheckSome(env.hasher, st.snaps, ids, st.now))
    case LockStep(id, until) => Maintenance.SetLock(st, id, until)
    case RestoreRequest(id) => st.(restoreJobs := st.restoreJobs + {id})
    case TickStep(time) => st.(now := st.now + time)
  }

  ghost function Noted(log: History, id: nat, step: Step): History {
    match step
    case BackupStep(_, files, _, _, _) => WithBackup(log, id, files)
    case SynthesizeStep(_, latest) => if latest in log.content then WithSynthetic(log, id, latest) else log
    case _ => log
  }

  ghost function Next(env: Env, fk: bool, w: World, step: Step): World
    requires Allowed(env, fk, w.st, step)
  {
    var st' := After(env, fk, w.st, step);
    World(st',
          Noted(w.log, w.st.nextId, step),
          w.recorded + (if step.BackupStep? then st'.snaps[w.st.nextId].dedupSize else 0),
          w.collected + Weight(RawSize(env, w.st.disk), w.st.disk.Keys - st'.disk.Keys))
  }

  ghost predicate ValidRun(env: Env, fk: bool, w: World, steps: seq<Step>)
    decreases |steps|
  {
    steps == [] || (Allowed(env, fk, w.st, steps[0]) && ValidRun(env, fk, Next(env, fk, w, steps[0]), steps[1..]))
  }

  ghost function Final(env: Env, fk: bool, w: World, steps: seq<Step>): World
    requires ValidRun(env, fk, w, steps)
    decreases |steps|
  {
    if steps == [] then w else Final(env, fk, Next(env, fk, w, steps[0]), steps[1..])
  }

  // ----- every step keeps the invariant -----

  lemma LockKeeps(env: Env, st: State, log: History, id: nat, until: Option<int>)
    requires Inv(env, st, log)
    ensures var st' := Maintenance.SetLock(st, id, until); Inv(env, st', log) && (Exact(st) ==> Exact(st'))
  {
    if id in st.snaps {
      assert Intact(env.hasher, st.snaps[id]);
      AnnotationKeeps(env, st, log, Maintenance.SetLock(st, id, until).snaps);
    }
  }

  /** Each kind of job keeps the invariant. */
  lemma StepKeeps(env: Env, fk: bool, w: World, step: Step)
    requires Assumptions(env) && Inv(env, w.st, w.log) && Allowed(env, fk, w.st, step)
    ensures Inv(env, After(env, fk, w.st, step), Noted(w.log, w.st.nextId, step))
  {
    var st := w.st;
    match step
    case BackupStep(source, files, incremental, prev, order) =>
      BackupKeeps(env, st, w.log, source, files, incremental, prev, order);
    case PruneStep(_, choices) =>
      PruneKeeps(env, fk, st, w.log, choices);
    case DeleteStep(id) =>
      DropKeeps(env, st, w.log, {id});
    case SynthesizeStep(source, latest) =>
      SynthesisKeeps(env, st, w.log, source, latest);
    case VerifyStep(ids) =>
      IntegrityPasses(env, st, w.log, ids);
      AnnotationKeeps(env, st, w.log, Maintenance.CheckSome(env.hasher, st.snaps, ids, st.now));
    case LockStep(id, until) =>
      LockKeeps(env, st, w.log, id, until);
    case RestoreRequest(_) =>
    case TickStep(_) =>
  }

  /** The step is no prune pass that is stopped after it has removed a chunk. */
  ghost predicate Lossless(fk: bool, st: State, step: Step) {
    step.PruneStep? ==> Pruner.Spares(fk, st, step.choices)
  }

  /** Exact accounting survives a step if and only if the step is lossless. */
  lemma StepExactWhen(env: Env, fk: bool, w: World, step: Step)
    requires Assumptions(env) && Inv(env, w.st, w.log) && Exact(w.st) && Allowed(env, fk, w.st, step)
    ensures Exact(After(env, fk, w.st, step)) <==> Lossless(fk, w.st, step)
  {
    var st := w.st;
    match step
    case BackupStep(source, files, incremental, prev, order) =>
      BackupKeeps(env, st, w.log, source, files, incremental, prev, order);
    case PruneStep(_, choices) =>
      PruneExactWhen(fk, st, choices);
    case DeleteStep(id) =>
      DropKeeps(env, st, w.log, {id});
    case SynthesizeStep(source, latest) =>
      SynthesisKeeps(env, st, w.log, source, latest);
    case VerifyStep(ids) =>
      IntegrityPasses(env, st, w.log, ids);
      AnnotationKeeps(env, st, w.log, Maintenance.CheckSome(env.hasher, st.snaps, ids, st.now));
    case LockStep(id, until) =>
      LockKeeps(env, st, w.log, id, until);
    case RestoreRequest(_) =>
    case TickStep(_) =>
  }

  // ----- byte conservation -----

  /** Every raw byte a backup claims to have added is still on disk or was collected. */
  ghost predicate Conserved(env: Env, w: World) {
    w.recorded == LogicalSize(env, w.st.disk) + w.collected
  }

  ghost predicate OnlyRemoves(disk: Disk, disk': Disk) {
    disk'.Keys <= disk.Keys && forall d :: d in disk' ==> disk'[d] == disk[d]
  }

  lemma ShrinkConserves(env: Env, disk: Disk, disk': Disk)
    requires OnlyRemoves(disk, disk')
    ensures LogicalSize(env, disk) == LogicalSize(env, disk') + Weight(RawSize(env, disk), disk.Keys - disk'.Keys)
  {
    var size := RawSize(env, disk);
    WeightSplit(size, disk'.Keys, disk.Keys - disk'.Keys);
    assert disk'.Keys + (disk.Keys - disk'.Keys) == disk.Keys;
    forall d | d in disk'
      ensures size(d) == RawSize(env, disk')(d)
    {
      assert Fetch(env, disk, d) == Fetch(env, disk', d);
    }
    WeightAgrees(size, RawSize(env, disk'), disk'.Keys);
  }

  lemma PassShrinks(fk: bool, st: State, choices: seq<Pruner.Choice>)
    ensures OnlyRemoves(st.disk, Pruner.Prune(fk, st, choices).disk)
  {
    Pruner.PassReaches(fk, st, choices);
  }

  lemma BackupConserves(env: Env, st: State, chunks: seq<Bytes>)
    requires Assumptions(env) && Faithful(env, st.disk) && ReadableChunks(env, chunks)
    ensures var disk := StoreAll(env, st.disk, chunks);
            && LogicalSize(env, disk) == LogicalSize(env, st.disk) + NewBytes(env, st.disk, chunks)
            && st.disk.Keys - disk.Keys == {}
  {
    NewBytesConserved(env, st.disk, chunks);
    StoreAllKeys(env, st.disk, chunks);
  }

  /** No job but a backup writes chunks. */
  lemma OthersOnlyRemove(env: Env, fk: bool, st: State, step: Step)
    requires Allowed(env, fk, st, step) && !step.BackupStep?
    ensures OnlyRemoves(st.disk, After(env, fk, st, step).disk)
  {
    match step
    case PruneStep(_, choices) =>
      PassShrinks(fk, st, choices);
    case _ =>
  }

  lemma StepConserves(env: Env, fk: bool, w: World, step: Step)
    requires Assumptions(env) && Inv(env, w.st, w.log) && Allowed(env, fk, w.st, step) && Conserved(env, w)
    ensures Conserved(env, Next(env, fk, w, step))
  {
    if step.BackupStep? {
      BackupConserves(env, w.st, AllChunks(step.files));
    } else {
      OthersOnlyRemove(env, fk, w.st, step);
      ShrinkConserves(env, w.st.disk, After(env, fk, w.st, step).disk);
    }
  }

  // ----- all runs -----

  ghost predicate Sound(env: Env, w: World) {
    Inv(env, w.st, w.log) && Conserved(env, w)
  }

  lemma StartSound(env: Env, now: int)
    ensures Sound(env, Start(now)) && Exact(Start(now).st)
  {
    assert AllRows(Start(now).st.snaps) == {};
  }

  lemma StepSound(env: Env, fk: bool, w: World, step: Step)
    requires Assumptions(env) && Sound(env, w) && Allowed(env, fk, w.st, step)
    ensures Sound(env, Next(env, fk, w, step))
  {
    StepKeeps(env, fk, w, step);
    StepConserves(env, fk, w, step);
  }

  lemma {:induction false} RunKeeps(env: Env, fk: bool, w: World, steps: seq<Step>)
    requires Assumptions(env) && Sound(env, w) && ValidRun(env, fk, w, steps)
    ensures Sound(env, Final(env, fk, w, steps))
    decreases |steps|
  {
    if steps == [] {
    } else {
      StepSound(env, fk, w, steps[0]);
      RunKeeps(env, fk, Next(env, fk, w, steps[0]), steps[1..]);
    }
  }

  lemma RunSound(env: Env, fk: bool, now: int, steps: seq<Step>)
    requires Assumptions(env) && ValidRun(env, fk, Start(now), steps)
    ensures Sound(env, Final(env, fk, Start(now), steps))
  {
    StartSound(env, now);
    RunKeeps(env, fk, Start(now), steps);
  }

  /** After any run, also with passes that the database stopped, some surviving row names
      every chunk on disk. */
  lemma NothingLeaks(env: Env, fk: bool, now: int, steps: seq<Step>, d: Digest)
    requires Assumptions(env) && ValidRun(env, fk, Start(now), steps)
    requires d in Final(env, fk, Start(now), steps).st.disk
    ensures Referenced(Final(env, fk, Start(now), steps).st.snaps, d)
  {
    RunSound(env, fk, now, steps);
    Pruner.AllRowsIff(Final(env, fk, Start(now), steps).st.snaps);
  }

  /** The dedup sizes of all backups of a run add up to the logical size of the store plus
      what the collector removed. */
  lemma DedupConservation(env: Env, fk: bool, now: int, steps: seq<Step>)
    requires Assumptions(env) && ValidRun(env, fk, Start(now), steps)
    ensures var w := Final(env, fk, Start(now), steps);
            w.recorded == LogicalSize(env, w.st.disk) + w.collected
  {
    RunSound(env, fk, now, steps);
  }

  /** After any run every integrity check passes, for worker-made and synthetic snapshots alike. */
  lemma IntegrityAlwaysPasses(env: Env, fk: bool, now: int, steps: seq<Step>, id: nat)
    requires Assumptions(env) && ValidRun(env, fk, Start(now), steps)
    requires id in Final(env, fk, Start(now), steps).st.snaps
    ensures var s := Final(env, fk, Start(now), steps).st.snaps[id];
            Merkle.Root(env.hasher, AllHashes(s.files)) == s.root && s.passed != Some(false)
  {
    RunSound(env, fk, now, steps);
    assert Intact(env.hasher, Final(env, fk, Start(now), steps).st.snaps[id]);
  }

  /** After any run a snapshot with files, worker-made or synthetic, restores if and only if its
      whole manifest is on disk, and then to exactly the files it stands for. */
  lemma RestoresExactlyWhen(env: Env, fk: bool, now: int, steps: seq<Step>, id: nat)
    requires Assumptions(env) && ValidRun(env, fk, Start(now), steps)
    requires id in Final(env, fk, Start(now), steps).st.snaps
    ensures var w := Final(env, fk, Start(now), steps);
            id in w.log.content && w.st.snaps[id].files == Manifest(env.hasher, w.log.content[id])
    ensures var w := Final(env, fk, Start(now), steps);
            var r := RestoreWorker.Restore(env, w.st, id, None);
            w.log.content[id] != [] ==>
              && (r == Ok(Directory(w.log.content[id])) <==> forall d :: d in AllHashes(w.st.snaps[id].files) ==> d in w.st.disk)
              && (r.Ok? ==> r == Ok(Directory(w.log.content[id])))
  {
    RunSound(env, fk, now, steps);
    var w := Final(env, fk, Start(now), steps);
    if w.log.content[id] != [] {
      RestoresWhen(env, w.st, w.log, id);
    }
  }

  // ----- runs in which no stopped pass has removed a chunk -----

  ghost predicate LosslessRun(env: Env, fk: bool, w: World, steps: seq<Step>)
    requires ValidRun(env, fk, w, steps)
    decreases |steps|
  {
    steps == [] || (Lossless(fk, w.st, steps[0]) && LosslessRun(env, fk, Next(env, fk, w, steps[0]), steps[1..]))
  }

  lemma {:induction false} RunExact(env: Env, fk: bool, w: World, steps: seq<Step>)
    requires Assumptions(env) && Sound(env, w) && Exact(w.st)
    requires ValidRun(env, fk, w, steps) && LosslessRun(env, fk, w, steps)
    ensures Exact(Final(env, fk, w, steps).st)
    decreases |steps|
  {
    if steps == [] {
    } else {
      StepSound(env, fk, w, steps[0]);
      StepExactWhen(env, fk, w, steps[0]);
      RunExact(env, fk, Next(env, fk, w, steps[0]), steps[1..]);
    }
  }

  /** Exact GC accounting: the chunks on disk are exactly the hashes in surviving rows. */
  lemma NothingDanglesNothingLeaks(env: Env, fk: bool, now: int, steps: seq<Step>, d: Digest)
    requires Assumptions(env) && ValidRun(env, fk, Start(now), steps) && LosslessRun(env, fk, Start(now), steps)
    ensures d in Final(env, fk, Start(now), steps).st.disk
       <==> Referenced(Final(env, fk, Start(now), steps).st.snaps, d)
  {
    StartSound(env, now);
    RunExact(env, fk, Start(now), steps);
    Pruner.AllRowsIff(Final(env, fk, Start(now), steps).st.snaps);
  }

  /** In such runs a snapshot with files, worker-made or synthetic, restores to exactly the
      files it stands for if and only if some row names each digest of its manifest. */
  lemma RestoresWhileReferenced(env: Env, fk: bool, now: int, steps: seq<Step>, id: nat)
    requires Assumptions(env) && ValidRun(env, fk, Start(now), steps) && LosslessRun(env, fk, Start(now), steps)
    requires id in Final(env, fk, Start(now), steps).st.snaps
    ensures id in Final(env, fk, Start(now), steps).log.content
    ensures var w := Final(env, fk, Start(now), steps);
            w.log.content[id] != [] ==>
              (RestoreWorker.Restore(env, w.st, id, None) == Ok(Directory(w.log.content[id]))
               <==> forall d :: d in AllHashes(w.st.snaps[id].files) ==> Referenced(w.st.snaps, d))
  {
    StartSound(env, now);
    RunExact(env, fk, Start(now), steps);
    RestoresExactlyWhen(env, fk, now, steps, id);
    Pruner.AllRowsIff(Final(env, fk, Start(now), steps).st.snaps);
  }

  // ----- runs in which no living increment loses its parent -----

  ghost predicate ParentsPresent(snaps: Snapshots) {
    forall id :: id in snaps && snaps[id].parent.Some? ==> snaps[id].parent.value in snaps
  }

  /** What the chain view calls safe to delete. */
  ghost predicate SafeToDelete(st: State, id: nat) {
    id in st.snaps && !Locked(st.snaps[id], st.now) && !HasChild(st.snaps, id)
  }

  /** Operators delete only safe snapshots; a pass must spare chunks, and without foreign
      keys leave the parents of its survivors alone. */
  ghost predicate Careful(fk: bool, st: State, step: Step) {
    match step
    case DeleteStep(id) => SafeToDelete(st, id)
    case PruneStep(_, choices) =>
      Pruner.Spares(fk, st, choices) && (fk || ParentsPresent(Pruner.Prune(fk, st, choices).snaps))
    case _ => true
  }

  ghost predicate CarefulRun(env: Env, fk: bool, w: World, steps: seq<Step>)
    requires ValidRun(env, fk, w, steps)
    decreases |steps|
  {
    steps == [] || (Careful(fk, w.st, steps[0]) && CarefulRun(env, fk, Next(env, fk, w, steps[0]), steps[1..]))
  }

  lemma {:induction false} CarefulIsLossless(env: Env, fk: bool, w: World, steps: seq<Step>)
    requires ValidRun(env, fk, w, steps) && CarefulRun(env, fk, w, steps)
    ensures LosslessRun(env, fk, w, steps)
    decreases |steps|
  {
    if steps == [] {
    } else {
      CarefulIsLossless(env, fk, Next(env, fk, w, steps[0]), steps[1..]);
    }
  }

  lemma {:induction false} DeletesKeepParents(st: State, order: seq<nat>)
    requires ParentsPresent(st.snaps)
    ensures ParentsPresent(Pruner.DeleteInOrder(true, st, order).st.snaps)
    decreases |order|
  {
    if order == [] {
    } else if !Pruner.Blocked(st, order[0]) {
      DeletesKeepParents(Pruner.Drop(st, {order[0]}), order[1..]);
    }
  }

  /** The foreign key protects living increments: no pass, completed or stopped, removes their parent. */
  lemma PassKeepsParents(st: State, choices: seq<Pruner.Choice>)
    requires ParentsPresent(st.snaps)
    ensures ParentsPresent(Pruner.Pass(true, st, choices).st.snaps) && ParentsPresent(Pruner.Prune(true, st, choices).snaps)
  {
    Pruner.PassIsAttempts(true, st, choices);
    DeletesKeepParents(st, Pruner.Attempts(choices));
  }

  lemma StepKeepsParents(env: Env, fk: bool, st: State, step: Step)
    requires ParentsPresent(st.snaps) && Allowed(env, fk, st, step) && Careful(fk, st, step)
    ensures ParentsPresent(After(env, fk, st, step).snaps)
  {
    match step
    case PruneStep(_, choices) =>
      if fk { PassKeepsParents(st, choices); }
    case BackupStep(source, files, incremental, prev, order) =>
      assert prev.Some? ==> prev.value in st.snaps;
    case _ =>
  }

  lemma {:induction false} RunKeepsParents(env: Env, fk: bool, w: World, steps: seq<Step>)
    requires ValidRun(env, fk, w, steps)
    ensures ParentsPresent(w.st.snaps) && CarefulRun(env, fk, w, steps) ==> ParentsPresent(Final(env, fk, w, steps).st.snaps)
    decreases |steps|
  {
    if steps == [] {
    } else if ParentsPresent(w.st.snaps) && CarefulRun(env, fk, w, steps) {
      StepKeepsParents(env, fk, w.st, steps[0]);
      RunKeepsParents(env, fk, Next(env, fk, w, steps[0]), steps[1..]);
    }
  }

  /** End-to-end safety: after any run of full and incremental backups, prune passes that
      complete or stop before they remove a chunk, safe deletions, synthetic fulls, locks
      and checks, under any clock, every worker-made snapshot that is left restores to
      exactly the directory it was taken from, whole or by path. */
  lemma EverySnapshotRestores(env: Env, fk: bool, now: int, steps: seq<Step>, id: nat)
    requires Assumptions(env) && ValidRun(env, fk, Start(now), steps) && CarefulRun(env, fk, Start(now), steps)
    requires var w := Final(env, fk, Start(now), steps);
             id in w.st.snaps && id !in w.log.synthetic
    ensures id in Final(env, fk, Start(now), steps).log.content
    ensures var w := Final(env, fk, Start(now), steps);
            w.log.content[id] != [] ==>
              && RestoreWorker.Restore(env, w.st, id, None) == Ok(Directory(w.log.content[id]))
              && forall path :: RestoreWorker.Restore(env, w.st, id, Some(path)) ==
                   if path in Directory(w.log.content[id]) then Ok(map[path := Directory(w.log.content[id])[path]])
                   else Err(RestoreWorker.FileNotInSnapshot)
  {
    var w := Final(env, fk, Start(now), steps);
    RunSound(env, fk, now, steps);
    StartSound(env, now);
    CarefulIsLossless(env, fk, Start(now), steps);
    RunExact(env, fk, Start(now), steps);
    RunKeepsParents(env, fk, Start(now), steps);
    if w.log.content[id] != [] {
      RestoresExactly(env, w.st, w.log, id);
    }
  }

  // ----- the dedup column of the database -----

  ghost function DedupOf(snaps: Snapshots): nat -> nat {
    id => if id in snaps then snaps[id].dedupSize else 0
  }

  /** The sum of dedup_size_bytes over some snapshots. */
  ghost function DedupSum(snaps: Snapshots, ids: set<nat>): nat {
    Weight(DedupOf(snaps), ids)
  }

  ghost predicate Deletes(step: Step) {
    step.PruneStep? || step.DeleteStep?
  }

  /** All synthetic snapshots are still there, and the column sums to the logical size of
      the store plus what synthetic fulls have copied. */
  ghost predicate Columned(env: Env, w: World) {
    && w.log.synthetic <= w.st.snaps.Keys
    && DedupSum(w.st.snaps, w.st.snaps.Keys) == LogicalSize(env, w.st.disk) + DedupSum(w.st.snaps, w.log.synthetic)
  }

  lemma DedupAdded(snaps: Snapshots, id: nat, s: Snapshot, ids: set<nat>)
    requires id !in snaps && ids <= snaps.Keys
    ensures DedupSum(snaps[id := s], ids) == DedupSum(snaps, ids)
    ensures DedupSum(snaps[id := s], ids + {id}) == DedupSum(snaps, ids) + s.dedupSize
  {
    var f, g := DedupOf(snaps), DedupOf(snaps[id := s]);
    WeightAgrees(f, g, ids);
    WeightRemove(g, ids + {id}, id);
    assert ids + {id} - {id} == ids;
  }

  lemma DedupUnchanged(snaps: Snapshots, snaps': Snapshots, ids: set<nat>)
    requires SameRecords(snaps, snaps')
    ensures DedupSum(snaps', ids) == DedupSum(snaps, ids)
  {
    forall id | id in ids
      ensures DedupOf(snaps)(id) == DedupOf(snaps')(id)
    {
      if id in snaps { assert SameRecord(snaps[id], snaps'[id]); }
    }
    WeightAgrees(DedupOf(snaps), DedupOf(snaps'), ids);
  }

  /** Whatever a new row puts into the column is on one side of the balance or the other. */
  lemma AddedColumn(snaps: Snapshots, id: nat, s: Snapshot, synthetic: set<nat>, isSynthetic: bool, size: nat)
    requires id !in snaps && synthetic <= snaps.Keys
    requires DedupSum(snaps, snaps.Keys) == size + DedupSum(snaps, synthetic)
    ensures var more, synthetic' := snaps[id := s], if isSynthetic then synthetic + {id} else synthetic;
            && synthetic' <= more.Keys
            && DedupSum(more, more.Keys) == (if isSynthetic then size else size + s.dedupSize) + DedupSum(more, synthetic')
  {
    DedupAdded(snaps, id, s, snaps.Keys);
    DedupAdded(snaps, id, s, synthetic);
    assert snaps[id := s].Keys == snaps.Keys + {id};
  }

  lemma AnnotatedColumn(snaps: Snapshots, snaps': Snapshots, ids: set<nat>)
    requires SameRecords(snaps, snaps')
    ensures snaps'.Keys == snaps.Keys
    ensures DedupSum(snaps', snaps'.Keys) == DedupSum(snaps, snaps.Keys) && DedupSum(snaps', ids) == DedupSum(snaps, ids)
  {
    DedupUnchanged(snaps, snaps', snaps.Keys);
    DedupUnchanged(snaps, snaps', ids);
  }

  lemma AnnotationsColumned(env: Env, fk: bool, w: World, step: Step)
    requires Columned(env, w) && Allowed(env, fk, w.st, step)
    requires step.VerifyStep? || step.LockStep? || step.RestoreRequest? || step.TickStep?
    ensures Columned(env, Next(env, fk, w, step))
  {
    match step {
      case VerifyStep(ids) => CheckAnnotates(env.hasher, w.st.snaps, ids, w.st.now);
      case LockStep(id, until) => LockAnnotates(w.st, id, until);
      case _ =>
    }
    AnnotatedColumn(w.st.snaps, After(env, fk, w.st, step).snaps, w.log.synthetic);
  }

  lemma StepColumned(env: Env, fk: bool, w: World, step: Step)
    requires Assumptions(env) && Inv(env, w.st, w.log) && Columned(env, w)
    requires Allowed(env, fk, w.st, step) && !Deletes(step)
    ensures Columned(env, Next(env, fk, w, step))
  {
    if step.BackupStep? {
      var s := BackupSnapshot(env, w.st, step.source, step.files, step.prev, step.order);
      BackupConserves(env, w.st, AllChunks(step.files));
      AddedColumn(w.st.snaps, w.st.nextId, s, w.log.synthetic, false, LogicalSize(env, w.st.disk));
    } else if step.SynthesizeStep? {
      var s := Maintenance.SyntheticSnapshot(env.hasher, w.st.snaps[step.latest], w.st.now);
      AddedColumn(w.st.snaps, w.st.nextId, s, w.log.synthetic, true, LogicalSize(env, w.st.disk));
    } else {
      AnnotationsColumned(env, fk, w, step);
    }
  }

  lemma {:induction false} RunColumned(env: Env, fk: bool, w: World, steps: seq<Step>)
    requires Assumptions(env) && Sound(env, w) && Columned(env, w) && ValidRun(env, fk, w, steps)
    requires forall i :: 0 <= i < |steps| ==> !Deletes(steps[i])
    ensures Columned(env, Final(env, fk, w, steps))
    decreases |steps|
  {
    if steps == [] {
    } else {
      StepSound(env, fk, w, steps[0]);
      StepColumned(env, fk, w, steps[0]);
      RunColumned(env, fk, Next(env, fk, w, steps[0]), steps[1..]);
    }
  }

  lemma {:induction false} ZeroSum(snaps: Snapshots, ids: set<nat>)
    requires ids <= snaps.Keys
    ensures DedupSum(snaps, ids) == 0 <==> forall id :: id in ids ==> snaps[id].dedupSize == 0
    decreases ids
  {
    if ids == {} {
    } else {
      var id :| id in ids;
      WeightRemove(DedupOf(snaps), ids, id);
      ZeroSum(snaps, ids - {id});
    }
  }

  /** Without deletions the dedup column sums to the logical size of the store plus what
      synthetic fulls have copied, so to the logical size alone if and only if every
      synthetic full copied zero. */
  lemma DedupColumn(env: Env, fk: bool, now: int, steps: seq<Step>)
    requires Assumptions(env) && ValidRun(env, fk, Start(now), steps)
    requires forall i :: 0 <= i < |steps| ==> !Deletes(steps[i])
    ensures var w := Final(env, fk, Start(now), steps);
            var column := DedupSum(w.st.snaps, w.st.snaps.Keys);
            && w.log.synthetic <= w.st.snaps.Keys
            && column == LogicalSize(env, w.st.disk) + DedupSum(w.st.snaps, w.log.synthetic)
            && (column == LogicalSize(env, w.st.disk) <==>
                  forall id :: id in w.log.synthetic ==> w.st.snaps[id].dedupSize == 0)
  {
    StartSound(env, now);
    RunColumned(env, fk, Start(now), steps);
    var w := Final(env, fk, Start(now), steps);
    ZeroSum(w.st.snaps, w.log.synthetic);
  }

  // ----- the same for one source -----

  ghost function OfSource(snaps: Snapshots, source: nat): set<nat> {
    set id | id in snaps && snaps[id].source == source
  }

  /** How much a step makes the store grow on behalf of a source. */
  ghost function Growth(env: Env, st: State, step: Step, source: nat): int {
    if step.BackupStep? && step.source == source
    then LogicalSize(env, StoreAll(env, st.disk, AllChunks(step.files))) - LogicalSize(env, st.disk)
    else 0
  }

  ghost function GrowthOf(env: Env, fk: bool, w: World, steps: seq<Step>, source: nat): int
    requires ValidRun(env, fk, w, steps)
    decreases |steps|
  {
    if steps == [] then 0
    else Growth(env, w.st, steps[0], source) + GrowthOf(env, fk, Next(env, fk, w, steps[0]), steps[1..], source)
  }

  ghost predicate SourceBalanced(snaps: Snapshots, synthetic: set<nat>, source: nat, grown: int) {
    && synthetic <= snaps.Keys
    && DedupSum(snaps, OfSource(snaps, source)) == grown + DedupSum(snaps, OfSource(snaps, source) * synthetic)
  }

  lemma AddedSourceColumn(snaps: Snapshots, id: nat, s: Snapshot, synthetic: set<nat>, isSynthetic: bool, source: nat, grown: int)
    requires id !in snaps && SourceBalanced(snaps, synthetic, source, grown)
    ensures SourceBalanced(snaps[id := s], if isSynthetic then synthetic + {id} else synthetic, source,
                           grown + if !isSynthetic && s.source == source then s.dedupSize else 0)
  {
    var more, synthetic' := snaps[id := s], if isSynthetic then synthetic + {id} else synthetic;
    var ids := OfSource(snaps, source);
    DedupAdded(snaps, id, s, ids);
    DedupAdded(snaps, id, s, ids * synthetic);
    if s.source == source {
      assert OfSource(more, source) == ids + {id};
      assert (ids + {id}) * synthetic' == if isSynthetic then ids * synthetic + {id} else ids * synthetic;
    } else {
      assert OfSource(more, source) == ids;
      assert ids * synthetic' == ids * synthetic;
    }
  }

  lemma AnnotatedSourceColumn(snaps: Snapshots, snaps': Snapshots, synthetic: set<nat>, source: nat, grown: int)
    requires SameRecords(snaps, snaps') && SourceBalanced(snaps, synthetic, source, grown)
    ensures SourceBalanced(snaps', synthetic, source, grown)
  {
    forall id | id in snaps
      ensures snaps'[id].source == snaps[id].source
    {
      assert SameRecord(snaps[id], snaps'[id]);
    }
    assert OfSource(snaps', source) == OfSource(snaps, source);
    DedupUnchanged(snaps, snaps', OfSource(snaps, source));
    DedupUnchanged(snaps, snaps', OfSource(snaps, source) * synthetic);
  }

  lemma AnnotationsBalanced(env: Env, fk: bool, w: World, step: Step, source: nat, grown: int)
    requires SourceBalanced(w.st.snaps, w.log.synthetic, source, grown) && Allowed(env, fk, w.st, step)
    requires step.VerifyStep? || step.LockStep? || step.RestoreRequest? || step.TickStep?
    ensures var w' := Next(env, fk, w, step); SourceBalanced(w'.st.snaps, w'.log.synthetic, source, grown)
  {
    match step {
      case VerifyStep(ids) => CheckAnnotates(env.hasher, w.st.snaps, ids, w.st.now);
      case LockStep(id, until) => LockAnnotates(w.st, id, until);
      case _ =>
    }
    AnnotatedSourceColumn(w.st.snaps, After(env, fk, w.st, step).snaps, w.log.synthetic, source, grown);
  }

  lemma StepBalanced(env: Env, fk: bool, w: World, step: Step, source: nat, grown: int)
    requires Assumptions(env) && Inv(env, w.st, w.log) && SourceBalanced(w.st.snaps, w.log.synthetic, source, grown)
    requires Allowed(env, fk, w.st, step) && !Deletes(step)
    ensures var w' := Next(env, fk, w, step);
            SourceBalanced(w'.st.snaps, w'.log.synthetic, source, grown + Growth(env, w.st, step, source))
  {
    if step.BackupStep? {
      var s := BackupSnapshot(env, w.st, step.source, step.files, step.prev, step.order);
      BackupConserves(env, w.st, AllChunks(step.files));
      AddedSourceColumn(w.st.snaps, w.st.nextId, s, w.log.synthetic, false, source, grown);
    } else if step.SynthesizeStep? {
      var s := Maintenance.SyntheticSnapshot(env.hasher, w.st.snaps[step.latest], w.st.now);
      AddedSourceColumn(w.st.snaps, w.st.nextId, s, w.log.synthetic, true, source, grown);
    } else {
      AnnotationsBalanced(env, fk, w, step, source, grown);
    }
  }

  lemma {:induction false} RunBalanced(env: Env, fk: bool, w: World, steps: seq<Step>, source: nat, grown: int)
    requires Assumptions(env) && Sound(env, w) && SourceBalanced(w.st.snaps, w.log.synthetic, source, grown)
    requires ValidRun(env, fk, w, steps) && forall i :: 0 <= i < |steps| ==> !Deletes(steps[i])
    ensures var w' := Final(env, fk, w, steps);
            SourceBalanced(w'.st.snaps, w'.log.synthetic, source, grown + GrowthOf(env, fk, w, steps, source))
    decreases |steps|
  {
    if steps == [] {
    } else {
      StepSound(env, fk, w, steps[0]);
      StepBalanced(env, fk, w, steps[0], source, grown);
      RunBalanced(env, fk, Next(env, fk, w, steps[0]), steps[1..], source, grown + Growth(env, w.st, steps[0], source));
    }
  }

  /** Without deletions the dedup column of one source sums to what its own backups made the
      store grow by, plus what its synthetic fulls have copied. */
  lemma SourceColumn(env: Env, fk: bool, now: int, steps: seq<Step>, source: nat)
    requires Assumptions(env) && ValidRun(env, fk, Start(now), steps)
    requires forall i :: 0 <= i < |steps| ==> !Deletes(steps[i])
    ensures var w := Final(env, fk, Start(now), steps);
            var ids := OfSource(w.st.snaps, source);
            && DedupSum(w.st.snaps, ids)
               == GrowthOf(env, fk, Start(now), steps, source) + DedupSum(w.st.snaps, ids * w.log.synthetic)
            && (DedupSum(w.st.snaps, ids) == GrowthOf(env, fk, Start(now), steps, source) <==>
                  forall id :: id in ids && id in w.log.synthetic ==> w.st.snaps[id].dedupSize == 0)
  {
    StartSound(env, now);
    RunBalanced(env, fk, Start(now), steps, source, 0);
    var w := Final(env, fk, Start(now), steps);
    ZeroSum(w.st.snaps, OfSource(w.st.snaps, source) * w.log.synthetic);
  }

  // ----- runs over plain content -----

  /** Like Allowed, with conditions on file contents alone. */
  ghost predicate PlainStep(env: Env, fk: bool, st: State, step: Step) {
    if step.BackupStep? then
      && Answers(st.snaps, step.source, step.incremental, step.prev, step.order)
      && ReadableChunks(env, AllChunks(step.files)) && PlainChunks(AllChunks(step.files))
    else Allowed(env, fk, st, step)
  }

  ghost predicate PlainRun(env: Env, fk: bool, w: World, steps: seq<Step>)
    decreases |steps|
  {
    steps == [] ||
      (PlainStep(env, fk, w.st, steps[0])
       && (Allowed(env, fk, w.st, steps[0]) ==> PlainRun(env, fk, Next(env, fk, w, steps[0]), steps[1..])))
  }

  ghost predicate PlainLog(log: History) {
    forall id :: id in log.content ==> PlainChunks(AllChunks(log.content[id]))
  }

  lemma PlainStepIsAllowed(env: Env, fk: bool, w: World, step: Step)
    requires Separated(env.hasher) && Inv(env, w.st, w.log) && PlainLog(w.log) && PlainStep(env, fk, w.st, step)
    ensures Allowed(env, fk, w.st, step) && PlainLog(Noted(w.log, w.st.nextId, step))
  {
    if step.BackupStep? {
      if step.prev.Some? {
        assert step.prev.value in w.st.snaps && step.prev.value in w.log.content;
      }
      PlainContentIsSuitable(env, w.st, w.log, step.files, step.prev, step.order);
    }
  }

  lemma {:induction false} PlainRunIsValidFrom(env: Env, fk: bool, w: World, steps: seq<Step>)
    requires Assumptions(env) && Separated(env.hasher)
    ensures Sound(env, w) && PlainLog(w.log) && PlainRun(env, fk, w, steps) ==> ValidRun(env, fk, w, steps)
    decreases |steps|
  {
    if steps == [] {
    } else if Sound(env, w) && PlainLog(w.log) && PlainRun(env, fk, w, steps) {
      PlainStepIsAllowed(env, fk, w, steps[0]);
      StepSound(env, fk, w, steps[0]);
      PlainRunIsValidFrom(env, fk, Next(env, fk, w, steps[0]), steps[1..]);
    }
  }

  /** When no backed-up chunk is 128 hex digits or stored raw with the zstd magic, all
      backups are suitable: the results about runs need no look at the trees. */
  lemma PlainRunIsValid(env: Env, fk: bool, now: int, steps: seq<Step>)
    requires Assumptions(env) && Separated(env.hasher) && PlainRun(env, fk, Start(now), steps)
    ensures ValidRun(env, fk, Start(now), steps)
  {
    StartSound(env, now);
    PlainRunIsValidFrom(env, fk, Start(now), steps);
  }
}
