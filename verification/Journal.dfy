/** What a run leaves on record about single snapshots: where they come from, when they were
    checked, and whether they are locked. */
module Journal {
  import opened Basics
  import opened Hashing
  import opened Cas
  import opened Records
  import opened BackupWorker
  import opened Accounting
  import opened Invariants
  import opened Runs
  import Chain
  import Maintenance
  import Merkle
  import Pruner
  import RestoreWorker
  import Retention

  /** A run from the empty system, with the worlds before, between and after its steps. */
  datatype Run = Run(env: Env, fk: bool, now: int, steps: seq<Step>, worlds: seq<World>)

  ghost predicate Follows(env: Env, fk: bool, steps: seq<Step>, worlds: seq<World>, i: int) {
    0 <= i < |steps| && i + 1 < |worlds|
    && Allowed(env, fk, worlds[i].st, steps[i]) && worlds[i + 1] == Next(env, fk, worlds[i], steps[i])
  }

  ghost predicate Listed(env: Env, fk: bool, w: World, steps: seq<Step>, worlds: seq<World>) {
    |worlds| == |steps| + 1 && worlds[0] == w && forall i :: 0 <= i < |steps| ==> Follows(env, fk, steps, worlds, i)
  }

  ghost predicate Proper(r: Run) {
    Assumptions(r.env) && Listed(r.env, r.fk, Start(r.now), r.steps, r.worlds)
  }

  /** The world after the first i steps. */
  function At(r: Run, i: nat): World
    requires i < |r.worlds|
  {
    r.worlds[i]
  }

  /** Every valid run can be listed, */
  lemma {:induction false} ValidIsListed(env: Env, fk: bool, w: World, steps: seq<Step>) returns (worlds: seq<World>)
    requires ValidRun(env, fk, w, steps)
    ensures Listed(env, fk, w, steps, worlds) && worlds[|steps|] == Final(env, fk, w, steps)
    decreases |steps|
  {
    if steps == [] {
      worlds := [w];
    } else {
      var rest := ValidIsListed(env, fk, Next(env, fk, w, steps[0]), steps[1..]);
      worlds := [w] + rest;
      forall i | 0 <= i < |steps|
        ensures Follows(env, fk, steps, worlds, i)
      {
        assert i > 0 ==> Follows(env, fk, steps[1..], rest, i - 1);
      }
    }
  }

  /** and only valid runs can. */
  lemma {:induction false} ListedIsValid(env: Env, fk: bool, w: World, steps: seq<Step>, worlds: seq<World>)
    requires Listed(env, fk, w, steps, worlds)
    ensures ValidRun(env, fk, w, steps) && Final(env, fk, w, steps) == worlds[|steps|]
    decreases |steps|
  {
    if steps == [] {
    } else {
      assert Follows(env, fk, steps, worlds, 0);
      forall i | 0 <= i < |steps[1..]|
        ensures Follows(env, fk, steps[1..], worlds[1..], i)
      {
        assert Follows(env, fk, steps, worlds, i + 1);
      }
      ListedIsValid(env, fk, worlds[1], steps[1..], worlds[1..]);
    }
  }

  lemma StepAt(r: Run, i: nat)
    requires Proper(r) && i < |r.steps|
    ensures Allowed(r.env, r.fk, At(r, i).st, r.steps[i]) && At(r, i + 1) == Next(r.env, r.fk, At(r, i), r.steps[i])
  {
    assert Follows(r.env, r.fk, r.steps, r.worlds, i);
  }

  lemma SoundNext(r: Run, i: nat)
    requires Proper(r) && i < |r.steps| && Sound(r.env, At(r, i))
    ensures Sound(r.env, At(r, i + 1))
  {
    StepAt(r, i);
    StepSound(r.env, r.fk, At(r, i), r.steps[i]);
  }

  lemma {:induction false} AlwaysSound(r: Run, i: nat)
    requires Proper(r) && i <= |r.steps|
    ensures Sound(r.env, At(r, i))
    decreases i
  {
    if i == 0 {
      StartSound(r.env, r.now);
    } else {
      AlwaysSound(r, i - 1);
      SoundNext(r, i - 1);
    }
  }

  lemma SoundAt(r: Run, i: nat)
    requires Proper(r) && i <= |r.steps|
    ensures Sound(r.env, At(r, i))
    ensures i < |r.steps| ==>
              Allowed(r.env, r.fk, At(r, i).st, r.steps[i]) && At(r, i + 1) == Next(r.env, r.fk, At(r, i), r.steps[i])
  {
    AlwaysSound(r, i);
    if i < |r.steps| {
      StepAt(r, i);
    }
  }

  // ----- what one step does to one row -----

  ghost predicate ChecksNow(st: State, step: Step, id: nat) {
    step.VerifyStep? && id in step.ids && id in st.snaps && st.snaps[id].files != []
  }

  ghost predicate LocksNow(st: State, step: Step, id: nat) {
    step.LockStep? && step.id == id && id in st.snaps
  }

  lemma PrunedRow(fk: bool, st: State, choices: seq<Pruner.Choice>, id: nat)
    requires id in Pruner.Prune(fk, st, choices).snaps
    ensures id in st.snaps && Pruner.Prune(fk, st, choices).snaps[id] == st.snaps[id]
  {
    Pruner.PassReaches(fk, st, choices);
  }

  /** A row that stays keeps everything but its lock and its verification columns, and these
      change exactly when it is locked or checked. */
  lemma OldRow(env: Env, fk: bool, st: State, step: Step, id: nat)
    requires Allowed(env, fk, st, step) && id in st.snaps && id < st.nextId && Intact(env.hasher, st.snaps[id])
    requires id in After(env, fk, st, step).snaps
    ensures var s := st.snaps[id];
            After(env, fk, st, step).snaps[id] ==
              s.(lockedUntil := if LocksNow(st, step, id) then step.until else s.lockedUntil,
                 lastVerified := if ChecksNow(st, step, id) then Some(st.now) else s.lastVerified,
                 passed := if ChecksNow(st, step, id) then Some(true) else s.passed)
  {
    match step
    case PruneStep(_, choices) => PrunedRow(fk, st, choices, id);
    case _ =>
  }

  /** A new row is the row of a backup or of a synthetic full. */
  lemma NewRow(env: Env, fk: bool, st: State, step: Step, id: nat)
    requires Allowed(env, fk, st, step) && id !in st.snaps && id in After(env, fk, st, step).snaps
    ensures id == st.nextId && (step.BackupStep? || step.SynthesizeStep?)
    ensures var s := After(env, fk, st, step).snaps[id];
            s.created == st.now && s.lockedUntil == None && s.lastVerified == None && s.passed == None
  {
    match step
    case PruneStep(_, choices) => PrunedRow(fk, st, choices, id);
    case _ =>
  }

  /** What one step does to the row of a snapshot that is listed afterwards. */
  ghost predicate RowStep(st: State, step: Step, st': State, id: nat)
    requires id in st'.snaps
  {
    var s' := st'.snaps[id];
    if id in st.snaps then
      var s := st.snaps[id];
      s' == s.(lockedUntil := if LocksNow(st, step, id) then step.until else s.lockedUntil,
               lastVerified := if ChecksNow(st, step, id) then Some(st.now) else s.lastVerified,
               passed := if ChecksNow(st, step, id) then Some(true) else s.passed)
    else
      && id == st.nextId && (step.BackupStep? || step.SynthesizeStep?)
      && s'.created == st.now && s'.lockedUntil == None && s'.lastVerified == None && s'.passed == None
  }

  lemma RowSteps(r: Run, i: nat, id: nat)
    requires Proper(r) && i < |r.steps| && id in At(r, i + 1).st.snaps
    ensures RowStep(At(r, i).st, r.steps[i], At(r, i + 1).st, id)
  {
    SoundAt(r, i);
    var st := At(r, i).st;
    if id in st.snaps {
      assert Intact(r.env.hasher, st.snaps[id]);
      OldRow(r.env, r.fk, st, r.steps[i], id);
    } else {
      NewRow(r.env, r.fk, st, r.steps[i], id);
    }
  }

  lemma NumberGrows(env: Env, fk: bool, w: World, step: Step)
    requires Allowed(env, fk, w.st, step)
    ensures Next(env, fk, w, step).st.nextId >= w.st.nextId
  {
    if step.PruneStep? {
      Pruner.PassReaches(fk, w.st, step.choices);
    }
  }

  lemma NextNumber(r: Run, i: nat)
    requires Proper(r) && i < |r.steps|
    ensures At(r, i).st.nextId <= At(r, i + 1).st.nextId
  {
    SoundAt(r, i);
    NumberGrows(r.env, r.fk, At(r, i), r.steps[i]);
  }

  lemma {:induction false} NumbersGrow(r: Run, j: nat, i: nat)
    requires Proper(r) && j <= i <= |r.steps|
    ensures At(r, j).st.nextId <= At(r, i).st.nextId
    decreases i
  {
    if j == i {
    } else {
      NumbersGrow(r, j, i - 1);
      NextNumber(r, i - 1);
    }
  }

  /** Numbers are not used again: a row that is new now was not there before. */
  lemma NewRowIsNew(r: Run, j: nat, i: nat, id: nat)
    requires Proper(r) && j <= i < |r.steps|
    requires id !in At(r, i).st.snaps && id in At(r, i + 1).st.snaps
    ensures id !in At(r, j).st.snaps
  {
    RowSteps(r, i, id);
    SoundAt(r, j);
    NumbersGrow(r, j, i);
  }

  // ----- the verification columns -----

  /** Step j is a check that lists the snapshot while it has files. */
  ghost predicate Checks(r: Run, j: int, id: nat)
    requires Proper(r)
  {
    0 <= j < |r.steps| && ChecksNow(At(r, j).st, r.steps[j], id)
  }

  ghost predicate LastCheck(r: Run, i: nat, j: int, id: nat)
    requires Proper(r)
  {
    j < i && Checks(r, j, id) && forall k :: j < k < i ==> !Checks(r, k, id)
  }

  ghost predicate CheckRecorded(r: Run, i: nat, id: nat)
    requires Proper(r) && i <= |r.steps| && id in At(r, i).st.snaps
  {
    var s := At(r, i).st.snaps[id];
    || (s.lastVerified == None && s.passed == None && forall j :: 0 <= j < i ==> !Checks(r, j, id))
    || exists j :: LastCheck(r, i, j, id) && s.lastVerified == Some(At(r, j).st.now) && s.passed == Some(true)
  }

  lemma OldCheckRecorded(r: Run, i: nat, id: nat)
    requires Proper(r) && i < |r.steps| && id in At(r, i).st.snaps && id in At(r, i + 1).st.snaps
    requires CheckRecorded(r, i, id) && RowStep(At(r, i).st, r.steps[i], At(r, i + 1).st, id)
    ensures CheckRecorded(r, i + 1, id)
  {
    if Checks(r, i, id) {
      assert LastCheck(r, i + 1, i, id);
    } else if j :| LastCheck(r, i, j, id) && At(r, i).st.snaps[id].lastVerified == Some(At(r, j).st.now) {
      assert LastCheck(r, i + 1, j, id);
    }
  }

  lemma NewUnchecked(r: Run, i: nat, id: nat)
    requires Proper(r) && i < |r.steps| && id !in At(r, i).st.snaps && id in At(r, i + 1).st.snaps
    ensures CheckRecorded(r, i + 1, id)
  {
    RowSteps(r, i, id);
    forall j | 0 <= j < i + 1
      ensures !Checks(r, j, id)
    {
      NewRowIsNew(r, j, i, id);
    }
  }

  lemma {:induction false} CheckColumns(r: Run, i: nat, id: nat)
    requires Proper(r) && i <= |r.steps| && id in At(r, i).st.snaps
    ensures CheckRecorded(r, i, id)
    decreases i
  {
    if i == 0 {
    } else if id in At(r, i - 1).st.snaps {
      CheckColumns(r, i - 1, id);
      RowSteps(r, i - 1, id);
      OldCheckRecorded(r, i - 1, id);
    } else {
      NewUnchecked(r, i - 1, id);
    }
  }

  /** At any point of any run: a snapshot has verification columns if and only if some check
      has listed it while it had files; they give the time of the last such check, and that it
      passed. */
  lemma ChecksOnRecord(r: Run, i: nat, id: nat)
    requires Proper(r) && i <= |r.steps| && id in At(r, i).st.snaps
    ensures var s := At(r, i).st.snaps[id];
            && (s.lastVerified.Some? <==> exists j :: 0 <= j < i && Checks(r, j, id))
            && (s.passed.Some? <==> exists j :: 0 <= j < i && Checks(r, j, id))
            && forall j :: LastCheck(r, i, j, id) ==> s.lastVerified == Some(At(r, j).st.now) && s.passed == Some(true)
  {
    CheckColumns(r, i, id);
    if k :| LastCheck(r, i, k, id) {
      forall j | LastCheck(r, i, j, id)
        ensures j == k
      {
        assert !(j < k) && !(k < j);
      }
    }
  }

  /** When a check takes place, a snapshot is listed only if no check has counted for it within
      seven days; and then it is listed, unless a hundred others are that are no older. */
  lemma NextCheck(r: Run, i: nat, id: nat, ids: set<nat>)
    requires Proper(r) && i <= |r.steps| && id in At(r, i).st.snaps
    requires Maintenance.NewestDue(At(r, i).st.snaps, At(r, i).st.now, ids)
    ensures id in ids ==> forall j :: LastCheck(r, i, j, id) ==> At(r, i).st.now - At(r, j).st.now > 604_800_000_000
    ensures id !in ids ==>
              || (exists j :: LastCheck(r, i, j, id) && At(r, i).st.now - At(r, j).st.now <= 604_800_000_000)
              || (|ids| == 100 && forall other :: other in ids ==>
                    other in At(r, i).st.snaps && At(r, i).st.snaps[other].created >= At(r, i).st.snaps[id].created)
  {
    ChecksOnRecord(r, i, id);
    CheckColumns(r, i, id);
    var st := At(r, i).st;
    Maintenance.ListsDue(st.snaps, st.now, ids);
  }

  // ----- the lock -----

  /** Step j locks or unlocks the snapshot. */
  ghost predicate Locks(r: Run, j: int, id: nat)
    requires Proper(r)
  {
    0 <= j < |r.steps| && LocksNow(At(r, j).st, r.steps[j], id)
  }

  ghost predicate LastLock(r: Run, i: nat, j: int, id: nat)
    requires Proper(r)
  {
    j < i && Locks(r, j, id) && forall k :: j < k < i ==> !Locks(r, k, id)
  }

  ghost predicate LockRecorded(r: Run, i: nat, id: nat)
    requires Proper(r) && i <= |r.steps| && id in At(r, i).st.snaps
  {
    || (At(r, i).st.snaps[id].lockedUntil == None && forall j :: 0 <= j < i ==> !Locks(r, j, id))
    || exists j :: LastLock(r, i, j, id) && At(r, i).st.snaps[id].lockedUntil == r.steps[j].until
  }

  lemma OldLockRecorded(r: Run, i: nat, id: nat)
    requires Proper(r) && i < |r.steps| && id in At(r, i).st.snaps && id in At(r, i + 1).st.snaps
    requires LockRecorded(r, i, id) && RowStep(At(r, i).st, r.steps[i], At(r, i + 1).st, id)
    ensures LockRecorded(r, i + 1, id)
  {
    if Locks(r, i, id) {
      assert LastLock(r, i + 1, i, id);
    } else if j :| LastLock(r, i, j, id) && At(r, i).st.snaps[id].lockedUntil == r.steps[j].until {
      assert LastLock(r, i + 1, j, id);
    }
  }

  lemma NewUnlocked(r: Run, i: nat, id: nat)
    requires Proper(r) && i < |r.steps| && id !in At(r, i).st.snaps && id in At(r, i + 1).st.snaps
    ensures LockRecorded(r, i + 1, id)
  {
    RowSteps(r, i, id);
    forall j | 0 <= j < i + 1
      ensures !Locks(r, j, id)
    {
      NewRowIsNew(r, j, i, id);
    }
  }

  lemma {:induction false} LockColumn(r: Run, i: nat, id: nat)
    requires Proper(r) && i <= |r.steps| && id in At(r, i).st.snaps
    ensures LockRecorded(r, i, id)
    decreases i
  {
    if i == 0 {
    } else if id in At(r, i - 1).st.snaps {
      LockColumn(r, i - 1, id);
      RowSteps(r, i - 1, id);
      OldLockRecorded(r, i - 1, id);
    } else {
      NewUnlocked(r, i - 1, id);
    }
  }

  /** At any point of any run a snapshot has the lock that was set last, and none if none was. */
  lemma LockOnRecord(r: Run, i: nat, id: nat)
    requires Proper(r) && i <= |r.steps| && id in At(r, i).st.snaps
    ensures (forall j :: 0 <= j < i ==> !Locks(r, j, id)) ==> At(r, i).st.snaps[id].lockedUntil == None
    ensures forall j :: LastLock(r, i, j, id) ==> At(r, i).st.snaps[id].lockedUntil == r.steps[j].until
  {
    LockColumn(r, i, id);
    if k :| LastLock(r, i, k, id) {
      forall j | LastLock(r, i, j, id)
        ensures j == k
      {
        assert !(j < k) && !(k < j);
      }
    }
  }

  /** No pass attempts a snapshot before its lock expires. */
  lemma {:induction false} NotAttempted(fk: bool, st: State, atts: seq<Pruner.Attachment>, choices: seq<Pruner.Choice>, id: nat)
    requires Pruner.PassFits(fk, st, atts, choices)
    requires id in st.snaps && st.snaps[id].lockedUntil.Some? && st.now < st.snaps[id].lockedUntil.value
    ensures id !in Pruner.Attempts(choices)
    decreases |atts|
  {
    if choices == [] {
      assert Pruner.Attempts(choices) == [];
    } else {
      Pruner.AttemptsSplit(choices);
      assert id !in choices[0].order;
      Pruner.DeleteReaches(fk, st, choices[0].order);
      var o := Pruner.DeleteInOrder(fk, st, choices[0].order);
      if o.completed {
        NotAttempted(fk, o.st, atts[1..], choices[1..], id);
      } else {
        assert choices[1..] == [] && Pruner.Attempts(choices[1..]) == [];
      }
    }
  }

  /** Between the lock at step k and step i nothing else locks, unlocks or deletes the
      snapshot, and every prune pass runs before t. */
  ghost predicate Undisturbed(r: Run, k: nat, i: nat, id: nat, t: int)
    requires Proper(r)
  {
    forall j :: k < j < i && j < |r.steps| ==>
      && !(r.steps[j].LockStep? && r.steps[j].id == id) && r.steps[j] != DeleteStep(id)
      && (r.steps[j].PruneStep? ==> At(r, j).st.now < t)
  }

  lemma LockedStays(env: Env, fk: bool, w: World, step: Step, id: nat, t: int)
    requires Allowed(env, fk, w.st, step) && id in w.st.snaps && w.st.snaps[id].lockedUntil == Some(t)
    requires step != DeleteStep(id) && (step.PruneStep? ==> w.st.now < t)
    ensures id in Next(env, fk, w, step).st.snaps
  {
    if step.PruneStep? {
      NotAttempted(fk, w.st, step.atts, step.choices, id);
      Pruner.PassReaches(fk, w.st, step.choices);
    }
  }

  lemma LockTaken(r: Run, k: nat, id: nat, t: int)
    requires Proper(r) && k < |r.steps| && id in At(r, k).st.snaps && r.steps[k] == LockStep(id, Some(t))
    ensures id in At(r, k + 1).st.snaps && At(r, k + 1).st.snaps[id].lockedUntil == Some(t)
  {
    SoundAt(r, k);
  }

  lemma LockHeld(r: Run, i: nat, id: nat, t: int)
    requires Proper(r) && i < |r.steps| && id in At(r, i).st.snaps && At(r, i).st.snaps[id].lockedUntil == Some(t)
    requires !(r.steps[i].LockStep? && r.steps[i].id == id) && r.steps[i] != DeleteStep(id)
    requires r.steps[i].PruneStep? ==> At(r, i).st.now < t
    ensures id in At(r, i + 1).st.snaps && At(r, i + 1).st.snaps[id].lockedUntil == Some(t)
  {
    SoundAt(r, i);
    LockedStays(r.env, r.fk, At(r, i), r.steps[i], id, t);
    RowSteps(r, i, id);
  }

  /** From a lock until t on, no step takes the snapshot away, as long as no later step locks,
      unlocks or deletes it and every prune pass, completed or stopped, runs before t. */
  lemma {:induction false} LockKeepsListed(r: Run, k: nat, i: nat, id: nat, t: int)
    requires Proper(r) && k < i <= |r.steps| && id in At(r, k).st.snaps && r.steps[k] == LockStep(id, Some(t))
    requires Undisturbed(r, k, i, id, t)
    ensures id in At(r, i).st.snaps && At(r, i).st.snaps[id].lockedUntil == Some(t)
    decreases i
  {
    if i == k + 1 {
      LockTaken(r, k, id, t);
    } else {
      LockKeepsListed(r, k, i - 1, id, t);
      LockHeld(r, i - 1, id, t);
    }
  }

  /** Meanwhile the chain view shows it as locked, and as not safe to delete, until t. */
  lemma LockShows(r: Run, k: nat, i: nat, id: nat, t: int,
                  source: nat, list: seq<Chain.ChainSnapshot>, s: Chain.ChainSnapshot, n: Chain.ChainNode)
    requires Proper(r) && k < i <= |r.steps| && id in At(r, k).st.snaps && r.steps[k] == LockStep(id, Some(t))
    requires Undisturbed(r, k, i, id, t)
    requires Chain.Lists(At(r, i).st.snaps, source, list) && s in list && s.id == id
    requires Chain.Annotates(list, At(r, i).st.now, s, n)
    ensures n.isLocked <==> At(r, i).st.now < t
    ensures At(r, i).st.now < t ==> !n.safeToDelete
  {
    LockKeepsListed(r, k, i, id, t);
  }

  /** A completed pass at any point of a run keeps a snapshot if and only if the lock that was
      set last has not expired, or no attached policy expires it, or where one does it is the
      query's newest. After an unlocking only the policies count. */
  lemma LockDecides(r: Run, i: nat, id: nat, atts: seq<Pruner.Attachment>, choices: seq<Pruner.Choice>)
    requires Proper(r) && i <= |r.steps| && id in At(r, i).st.snaps
    requires Pruner.PassFits(r.fk, At(r, i).st, atts, choices) && Pruner.Pass(r.fk, At(r, i).st, choices).completed
    ensures |choices| == |atts|
    ensures var st := At(r, i).st;
            id in Pruner.Prune(r.fk, st, choices).snaps <==>
              || (exists j :: LastLock(r, i, j, id) && r.steps[j].until.Some? && st.now < r.steps[j].until.value)
              || forall a :: 0 <= a < |atts| && atts[a].source == st.snaps[id].source ==>
                   st.snaps[id].created >= st.now - atts[a].retention || choices[a].keep == Some(id)
  {
    LockColumn(r, i, id);
    LockOnRecord(r, i, id);
    Retention.Survivors(r.fk, At(r, i).st, atts, choices, id);
  }

  // ----- where a row comes from -----

  /** A full backup has no parent; an incremental one has one of the newest snapshots of its
      source, and none only if there was no snapshot. */
  ghost predicate RightParent(snaps: Snapshots, source: nat, incremental: bool, parent: Option<nat>) {
    && (parent.None? <==> !incremental || forall id :: id in snaps ==> snaps[id].source != source)
    && (parent.Some? ==>
          && parent.value in snaps && snaps[parent.value].source == source
          && forall id :: id in snaps && snaps[id].source == source ==> snaps[id].created <= snaps[parent.value].created)
  }

  /** Step j made the row: a backup, or a synthesis, which leaves it without parent and rows. */
  ghost predicate MadeBy(r: Run, j: int, id: nat, s: Snapshot, synthetic: bool)
    requires Proper(r)
  {
    && 0 <= j < |r.steps| && At(r, j).st.nextId == id && s.created == At(r, j).st.now
    && match r.steps[j]
       case BackupStep(source, _, incremental, _, _) =>
         !synthetic && s.source == source && RightParent(At(r, j).st.snaps, source, incremental, s.parent)
       case SynthesizeStep(source, _) => synthetic && s.source == source && s.parent == None && s.rows == []
       case _ => false
  }

  lemma NewRowMade(r: Run, i: nat, id: nat)
    requires Proper(r) && i < |r.steps| && id !in At(r, i).st.snaps && id in At(r, i + 1).st.snaps
    ensures MadeBy(r, i, id, At(r, i + 1).st.snaps[id], id in At(r, i + 1).log.synthetic)
  {
    SoundAt(r, i);
    RowSteps(r, i, id);
  }

  lemma SyntheticStays(env: Env, fk: bool, w: World, step: Step, id: nat)
    requires Inv(env, w.st, w.log) && Allowed(env, fk, w.st, step) && id in w.st.snaps
    ensures var w' := Next(env, fk, w, step);
            && (id in w'.log.synthetic <==> id in w.log.synthetic)
            && id in w'.log.content && w'.log.content[id] == w.log.content[id]
  {
  }

  lemma OldRowMade(r: Run, i: nat, id: nat, j: int)
    requires Proper(r) && i < |r.steps| && id in At(r, i).st.snaps && id in At(r, i + 1).st.snaps
    requires MadeBy(r, j, id, At(r, i).st.snaps[id], id in At(r, i).log.synthetic)
    ensures MadeBy(r, j, id, At(r, i + 1).st.snaps[id], id in At(r, i + 1).log.synthetic)
  {
    SoundAt(r, i);
    SyntheticStays(r.env, r.fk, At(r, i), r.steps[i], id);
    RowSteps(r, i, id);
    var s, s' := At(r, i).st.snaps[id], At(r, i + 1).st.snaps[id];
    assert s'.source == s.source && s'.created == s.created && s'.parent == s.parent && s'.rows == s.rows;
  }

  /** At any point of any run: a snapshot has its number, creation time, source and parent from
      the backup or the synthesis that made it. */
  lemma {:induction false} MadeOnce(r: Run, i: nat, id: nat)
    requires Proper(r) && i <= |r.steps| && id in At(r, i).st.snaps
    ensures exists j :: 0 <= j < i && MadeBy(r, j, id, At(r, i).st.snaps[id], id in At(r, i).log.synthetic)
    decreases i
  {
    if i == 0 {
    } else if id in At(r, i - 1).st.snaps {
      MadeOnce(r, i - 1, id);
      var before := At(r, i - 1);
      var j :| 0 <= j < i - 1 && MadeBy(r, j, id, before.st.snaps[id], id in before.log.synthetic);
      OldRowMade(r, i - 1, id, j);
    } else {
      NewRowMade(r, i - 1, id);
    }
  }

  /** Step j is a backup of these files for this source, and what it made the store grow by is
      the snapshot's dedup size. */
  ghost predicate GrownBy(r: Run, j: int, s: Snapshot, files: seq<SourceFile>)
    requires Proper(r)
  {
    && 0 <= j < |r.steps| && r.steps[j].BackupStep? && r.steps[j].source == s.source && r.steps[j].files == files
    && s.dedupSize == Growth(r.env, At(r, j).st, r.steps[j], s.source)
  }

  /** The other summary columns, from the files a snapshot stands for and its rows. */
  ghost predicate Summed(s: Snapshot, files: seq<SourceFile>) {
    && s.totalSize == SumNat(Map((f: SourceFile) => |f.data|, files)) && s.dedupSize <= s.totalSize
    && s.chunkCount == |AllHashes(s.files)| && s.newChunkCount == |RowSet(s)|
  }

  lemma BackupRow(r: Run, i: nat, id: nat)
    requires Proper(r) && i < |r.steps| && r.steps[i].BackupStep? && id == At(r, i).st.nextId
    ensures var w := At(r, i + 1);
            && id in w.st.snaps && id in w.log.content && Summed(w.st.snaps[id], w.log.content[id])
            && GrownBy(r, i, w.st.snaps[id], w.log.content[id])
  {
    SoundAt(r, i);
    var st, step := At(r, i).st, r.steps[i];
    BackupConserves(r.env, st, AllChunks(step.files));
    BackupMetrics(r.env, st, step.source, step.files, step.prev, step.order);
  }

  lemma SyntheticRow(r: Run, i: nat, id: nat, files: seq<SourceFile>)
    requires Proper(r) && i < |r.steps| && r.steps[i].SynthesizeStep? && id == At(r, i).st.nextId
    requires var latest := r.steps[i].latest;
             && latest in At(r, i).st.snaps && latest in At(r, i).log.content
             && At(r, i).log.content[latest] == files && Summed(At(r, i).st.snaps[latest], files)
    ensures var w, s := At(r, i + 1), At(r, i).st.snaps[r.steps[i].latest];
            && id in w.st.snaps && id in w.log.content && w.log.content[id] == files
            && w.st.snaps[id].source == s.source && w.st.snaps[id].dedupSize == s.dedupSize && Summed(w.st.snaps[id], files)
  {
    SoundAt(r, i);
    NoElements(RowHashes(At(r, i + 1).st.snaps[id]));
  }

  /** The snapshot is listed after i steps, and its summary columns are those of a backup among
      these steps, of the files it stands for. */
  ghost predicate OnRecord(r: Run, i: nat, id: nat)
    requires Proper(r) && i <= |r.steps|
  {
    var w := At(r, i);
    && id in w.st.snaps && id in w.log.content && Summed(w.st.snaps[id], w.log.content[id])
    && exists j :: 0 <= j < i && GrownBy(r, j, w.st.snaps[id], w.log.content[id])
  }

  lemma OldOnRecord(r: Run, i: nat, id: nat)
    requires Proper(r) && i < |r.steps| && OnRecord(r, i, id) && id in At(r, i + 1).st.snaps
    ensures OnRecord(r, i + 1, id)
  {
    SoundAt(r, i);
    SyntheticStays(r.env, r.fk, At(r, i), r.steps[i], id);
    RowSteps(r, i, id);
    var s, s', files := At(r, i).st.snaps[id], At(r, i + 1).st.snaps[id], At(r, i).log.content[id];
    var j :| 0 <= j < i && GrownBy(r, j, s, files);
    assert s'.source == s.source && s'.dedupSize == s.dedupSize && s'.files == s.files && s'.rows == s.rows;
    assert GrownBy(r, j, s', files);
  }

  lemma BackupOnRecord(r: Run, i: nat, id: nat)
    requires Proper(r) && i < |r.steps| && r.steps[i].BackupStep? && id == At(r, i).st.nextId
    ensures OnRecord(r, i + 1, id)
  {
    BackupRow(r, i, id);
    assert GrownBy(r, i, At(r, i + 1).st.snaps[id], At(r, i + 1).log.content[id]);
  }

  lemma SyntheticOnRecord(r: Run, i: nat, id: nat)
    requires Proper(r) && i < |r.steps| && r.steps[i].SynthesizeStep? && id == At(r, i).st.nextId
    requires OnRecord(r, i, r.steps[i].latest)
    ensures OnRecord(r, i + 1, id)
  {
    var latest := r.steps[i].latest;
    var s, files := At(r, i).st.snaps[latest], At(r, i).log.content[latest];
    var j :| 0 <= j < i && GrownBy(r, j, s, files);
    SyntheticRow(r, i, id, files);
    assert GrownBy(r, j, At(r, i + 1).st.snaps[id], files);
  }

  lemma NewIsMade(r: Run, i: nat, id: nat)
    requires Proper(r) && i < |r.steps| && id !in At(r, i).st.snaps && id in At(r, i + 1).st.snaps
    ensures id == At(r, i).st.nextId && (r.steps[i].BackupStep? || r.steps[i].SynthesizeStep?)
    ensures r.steps[i].SynthesizeStep? ==> r.steps[i].latest in At(r, i).st.snaps
  {
    RowSteps(r, i, id);
    SoundAt(r, i);
  }

  lemma NewOnRecord(r: Run, i: nat, id: nat)
    requires Proper(r) && i < |r.steps| && id !in At(r, i).st.snaps && id in At(r, i + 1).st.snaps
    requires r.steps[i].SynthesizeStep? ==> OnRecord(r, i, r.steps[i].latest)
    ensures OnRecord(r, i + 1, id)
  {
    NewIsMade(r, i, id);
    if r.steps[i].BackupStep? {
      BackupOnRecord(r, i, id);
    } else {
      SyntheticOnRecord(r, i, id);
    }
  }

  /** The snapshots whose columns a listed snapshot still has, or has just copied. */
  ghost function Columns(r: Run, i: nat, id: nat): set<nat>
    requires Proper(r) && i < |r.steps|
  {
    if id in At(r, i).st.snaps then {id} else if r.steps[i].SynthesizeStep? then {r.steps[i].latest} else {}
  }

  lemma ColumnsFrom(r: Run, i: nat, id: nat)
    requires Proper(r) && i < |r.steps| && id in At(r, i + 1).st.snaps
    ensures Columns(r, i, id) <= At(r, i).st.snaps.Keys
    ensures (forall earlier :: earlier in Columns(r, i, id) ==> OnRecord(r, i, earlier)) ==> OnRecord(r, i + 1, id)
  {
    if id in At(r, i).st.snaps {
      if OnRecord(r, i, id) {
        OldOnRecord(r, i, id);
      }
    } else {
      NewIsMade(r, i, id);
      if r.steps[i].BackupStep? || OnRecord(r, i, r.steps[i].latest) {
        NewOnRecord(r, i, id);
      }
    }
  }

  /** At any point of any run: the dedup size of a snapshot, worker-made or synthetic, is what
      some backup of the files it stands for made the store grow by, and the other summary
      columns describe these files. */
  lemma {:induction false} ColumnsOnRecord(r: Run, i: nat, id: nat)
    requires Proper(r) && i <= |r.steps| && id in At(r, i).st.snaps
    ensures OnRecord(r, i, id)
    decreases i
  {
    if i == 0 {
    } else {
      var ids := Columns(r, i - 1, id);
      ColumnsFrom(r, i - 1, id);
      forall earlier | earlier in ids {
        ColumnsOnRecord(r, i - 1, earlier);
      }
    }
  }

  // ----- what a check and a restore find out, and what they do not -----

  /** The database with other files recorded under a snapshot. */
  ghost function Rewritten(st: State, id: nat, files: seq<FileRecord>): State
    requires id in st.snaps
  {
    st.(snaps := st.snaps[id := st.snaps[id].(files := files)])
  }

  /** At any point of any run: when the records of a snapshot are replaced by records of as
      many digests, but not the same, then the next check that lists it fails it, and it is
      not restored as a whole. */
  lemma TamperingFound(r: Run, i: nat, id: nat, files: seq<FileRecord>, ids: set<nat>)
    requires Proper(r) && i <= |r.steps| && id in At(r, i).st.snaps && id in ids && files != []
    requires var sealed := AllHashes(At(r, i).st.snaps[id].files); |AllHashes(files)| == |sealed| && AllHashes(files) != sealed
    ensures var st := Rewritten(At(r, i).st, id, files);
            && Maintenance.CheckSome(r.env.hasher, st.snaps, ids, st.now)[id].passed == Some(false)
            && RestoreWorker.Restore(r.env, st, id, None).Err?
            && (RestoreWorker.AllReadable(r.env, st.disk, AllHashes(files)) ==>
                  RestoreWorker.Restore(r.env, st, id, None) == Err(RestoreWorker.RootMismatch))
  {
    SoundAt(r, i);
    var st, sealed := Rewritten(At(r, i).st, id, files), AllHashes(At(r, i).st.snaps[id].files);
    assert Intact(r.env.hasher, At(r, i).st.snaps[id]);
    Maintenance.ResealedFailsCheck(r.env.hasher, st.snaps, ids, st.now, id, sealed);
    RestoreWorker.ResealedNeverRestores(r.env, st, id, sealed);
  }

  /** Without node values among the digests, any other records fail the check if and only if
      the two padded lists differ. */
  lemma TamperingFoundWhen(r: Run, i: nat, id: nat, files: seq<FileRecord>, ids: set<nat>)
    requires Proper(r) && i <= |r.steps| && id in At(r, i).st.snaps && id in ids
    requires AllHashes(files) != [] && Merkle.NoNodeValues(r.env.hasher, AllHashes(files))
    requires var sealed := AllHashes(At(r, i).st.snaps[id].files); sealed != [] && Merkle.NoNodeValues(r.env.hasher, sealed)
    ensures var st, sealed := Rewritten(At(r, i).st, id, files), AllHashes(At(r, i).st.snaps[id].files);
            Maintenance.CheckSome(r.env.hasher, st.snaps, ids, st.now)[id].passed == Some(false)
            <==> Merkle.Padded(AllHashes(files)) != Merkle.Padded(sealed)
  {
    SoundAt(r, i);
    var st, sealed := Rewritten(At(r, i).st, id, files), AllHashes(At(r, i).st.snaps[id].files);
    assert Intact(r.env.hasher, At(r, i).st.snaps[id]);
    NoRecordsNoHashes();
    Maintenance.CheckRecords(r.env.hasher, st.snaps, ids, st.now, id);
    Merkle.RootCharacterisation(r.env.hasher, AllHashes(files), sealed);
  }

  /** Neither reads what the chunks say: with any other store, a snapshot with files restores as
      a whole if and only if each of its digests can be read, whatever bytes come back, and
      these bytes are what is written. */
  lemma RotUnnoticed(r: Run, i: nat, id: nat, disk: Disk)
    requires Proper(r) && i <= |r.steps| && id in At(r, i).st.snaps && At(r, i).st.snaps[id].files != []
    ensures var files := At(r, i).st.snaps[id].files;
            match RestoreWorker.Restore(r.env, At(r, i).st.(disk := disk), id, None)
            case Ok(tree) =>
              RestoreWorker.AllReadable(r.env, disk, AllHashes(files)) && RestoreWorker.Written(r.env, disk, files, None, tree)
            case Err(_) => !RestoreWorker.AllReadable(r.env, disk, AllHashes(files))
  {
    SoundAt(r, i);
    assert Intact(r.env.hasher, At(r, i).st.snaps[id]);
    RestoreWorker.RestoreOutcome(r.env, At(r, i).st.(disk := disk), id, None);
    RestoreWorker.WholeRestoreWhen(r.env, At(r, i).st.(disk := disk), id);
  }

  /** The next check that lists it passes it as well, whatever the store holds. */
  lemma RotPassesCheck(r: Run, i: nat, id: nat, disk: Disk, ids: set<nat>)
    requires Proper(r) && i <= |r.steps| && id in At(r, i).st.snaps && At(r, i).st.snaps[id].files != []
    requires id in ids && Allowed(r.env, r.fk, At(r, i).st.(disk := disk), VerifyStep(ids))
    ensures After(r.env, r.fk, At(r, i).st.(disk := disk), VerifyStep(ids)).snaps[id].passed == Some(true)
  {
    SoundAt(r, i);
    assert Intact(r.env.hasher, At(r, i).st.snaps[id]);
  }

  /** The digest d of a file names a chunk that now reads as y, of the same length as before. */
  ghost predicate Rotten(env: Env, disk: Disk, disk': Disk, d: Digest, y: Bytes) {
    && Fetch(env, disk, d).Ok? && |Fetch(env, disk, d).value| == |y| && Fetch(env, disk, d).value != y
    && Fetch(env, disk', d) == Ok(y)
    && forall e :: e != d ==> Fetch(env, disk', e) == Fetch(env, disk, e)
  }

  lemma RottenReadable(env: Env, disk: Disk, disk': Disk, d: Digest, y: Bytes, hashes: seq<Digest>)
    requires Rotten(env, disk, disk', d, y) && RestoreWorker.AllReadable(env, disk, hashes)
    ensures RestoreWorker.AllReadable(env, disk', hashes)
  {
    forall i | 0 <= i < |hashes|
      ensures Fetch(env, disk', hashes[i]).Ok?
    {
      assert Fetch(env, disk, hashes[i]).Ok?;
    }
  }

  lemma RottenDiffers(env: Env, disk: Disk, disk': Disk, d: Digest, y: Bytes, hashes: seq<Digest>)
    requires Rotten(env, disk, disk', d, y) && RestoreWorker.AllReadable(env, disk, hashes) && d in hashes
    ensures RestoreWorker.AllReadable(env, disk', hashes)
    ensures RestoreWorker.Joined(env, disk', hashes) != RestoreWorker.Joined(env, disk, hashes)
  {
    RottenReadable(env, disk, disk', d, y, hashes);
    var a := seq(|hashes|, i requires 0 <= i < |hashes| => Fetch(env, disk, hashes[i]).value);
    var b := seq(|hashes|, i requires 0 <= i < |hashes| => Fetch(env, disk', hashes[i]).value);
    var k :| 0 <= k < |hashes| && hashes[k] == d;
    assert forall i :: 0 <= i < |hashes| ==> Fetch(env, disk, hashes[i]).Ok? && |a[i]| == |b[i]|;
    FlattenDiffers(a, b, k);
  }

  /** At any point of any run: when the bytes of one chunk change in place, a whole restore that
      succeeded before succeeds again, and writes something else for every file with the chunk. */
  lemma RotRestored(r: Run, i: nat, id: nat, disk: Disk, d: Digest, y: Bytes, k: int)
    requires Proper(r) && i <= |r.steps| && id in At(r, i).st.snaps
    requires RestoreWorker.Restore(r.env, At(r, i).st, id, None).Ok? && Rotten(r.env, At(r, i).st.disk, disk, d, y)
    requires var files := At(r, i).st.snaps[id].files; RestoreWorker.LastOfPath(files, k) && d in files[k].hashes
    ensures var path := At(r, i).st.snaps[id].files[k].path;
            var before := RestoreWorker.Restore(r.env, At(r, i).st, id, None);
            var after := RestoreWorker.Restore(r.env, At(r, i).st.(disk := disk), id, None);
            after.Ok? && path in before.value && path in after.value && after.value[path] != before.value[path]
  {
    var st, files := At(r, i).st, At(r, i).st.snaps[id].files;
    assert st.(disk := st.disk) == st;
    RotUnnoticed(r, i, id, st.disk);
    RottenReadable(r.env, st.disk, disk, d, y, AllHashes(files));
    RotUnnoticed(r, i, id, disk);
    assert RestoreWorker.HasPath(files, files[k].path);
    RottenDiffers(r.env, st.disk, disk, d, y, files[k].hashes);
  }
}
