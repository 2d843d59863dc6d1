/** Runs that give the snapshots of a source distinct creation times: there the exact
    promises of a retention pass hold in every reachable state. */
module Clock {
  import opened Basics
  import opened Cas
  import opened Records
  import opened BackupWorker
  import opened Invariants
  import opened Retention
  import opened Runs
  import Maintenance
  import Pruner

  /** The clock shows no time that a snapshot of the source has. */
  ghost predicate TimeIsFresh(st: State, source: nat) {
    forall id :: id in st.snaps && st.snaps[id].source == source ==> st.snaps[id].created != st.now
  }

  ghost predicate Steady(st: State, step: Step) {
    match step
    case BackupStep(source, _, _, _, _) => TimeIsFresh(st, source)
    case SynthesizeStep(source, _) => TimeIsFresh(st, source)
    case _ => true
  }

  ghost predicate SteadyRun(env: Env, fk: bool, w: World, steps: seq<Step>)
    requires ValidRun(env, fk, w, steps)
    decreases |steps|
  {
    steps == [] || (Steady(w.st, steps[0]) && SteadyRun(env, fk, Next(env, fk, w, steps[0]), steps[1..]))
  }

  lemma AddTimed(st: State, log: History, s: Snapshot)
    requires Numbered(st, log) && DistinctTimes(st.snaps) && TimeIsFresh(st, s.source) && s.created == st.now
    ensures DistinctTimes(st.snaps[st.nextId := s])
  {
  }

  lemma AnnotatedTimed(snaps: Snapshots, snaps': Snapshots)
    requires DistinctTimes(snaps) && SameRecords(snaps, snaps')
    ensures DistinctTimes(snaps')
  {
    forall id | id in snaps'
      ensures snaps'[id].source == snaps[id].source && snaps'[id].created == snaps[id].created
    {
      assert SameRecord(snaps[id], snaps'[id]);
    }
  }

  lemma PrunedTimed(fk: bool, st: State, choices: seq<Pruner.Choice>)
    requires DistinctTimes(st.snaps)
    ensures DistinctTimes(Pruner.Prune(fk, st, choices).snaps)
  {
    Pruner.PassReaches(fk, st, choices);
  }

  lemma StepTimed(env: Env, fk: bool, w: World, step: Step)
    requires Inv(env, w.st, w.log) && DistinctTimes(w.st.snaps) && Allowed(env, fk, w.st, step) && Steady(w.st, step)
    ensures DistinctTimes(After(env, fk, w.st, step).snaps)
  {
    var st := w.st;
    match step
    case BackupStep(source, files, _, prev, order) =>
      AddTimed(st, w.log, BackupSnapshot(env, st, source, files, prev, order));
    case SynthesizeStep(_, latest) =>
      AddTimed(st, w.log, Maintenance.SyntheticSnapshot(env.hasher, st.snaps[latest], st.now));
    case PruneStep(_, choices) => PrunedTimed(fk, st, choices);
    case VerifyStep(ids) =>
      CheckAnnotates(env.hasher, st.snaps, ids, st.now);
      AnnotatedTimed(st.snaps, After(env, fk, st, step).snaps);
    case LockStep(id, until) =>
      LockAnnotates(st, id, until);
      AnnotatedTimed(st.snaps, After(env, fk, st, step).snaps);
    case _ =>
  }

  lemma {:induction false} RunTimed(env: Env, fk: bool, w: World, steps: seq<Step>)
    requires Assumptions(env) && Sound(env, w) && DistinctTimes(w.st.snaps)
    requires ValidRun(env, fk, w, steps) && SteadyRun(env, fk, w, steps)
    ensures DistinctTimes(Final(env, fk, w, steps).st.snaps)
    decreases |steps|
  {
    if steps == [] {
    } else {
      StepSound(env, fk, w, steps[0]);
      StepTimed(env, fk, w, steps[0]);
      RunTimed(env, fk, Next(env, fk, w, steps[0]), steps[1..]);
    }
  }

  /** What a pass may assume of a state that such a run has reached. */
  lemma SteadyState(env: Env, fk: bool, now: int, steps: seq<Step>)
    requires Assumptions(env) && ValidRun(env, fk, Start(now), steps) && SteadyRun(env, fk, Start(now), steps)
    ensures var snaps := Final(env, fk, Start(now), steps).st.snaps; DistinctTimes(snaps) && ParentsOfSameSource(snaps)
  {
    StartSound(env, now);
    RunTimed(env, fk, Start(now), steps);
    RunSound(env, fk, now, steps);
  }

  /** In every state such a run reaches, a pass completes exactly when no removable snapshot is
      protected, and then leaves exactly the newest, the locked and the unexpired snapshots. */
  lemma PassInSteadyRuns(env: Env, fk: bool, now: int, steps: seq<Step>,
                         atts: seq<Pruner.Attachment>, choices: seq<Pruner.Choice>, id: nat)
    requires Assumptions(env) && ValidRun(env, fk, Start(now), steps) && SteadyRun(env, fk, Start(now), steps)
    requires var st := Final(env, fk, Start(now), steps).st; Pruner.PassFits(fk, st, atts, choices) && id in st.snaps
    ensures var st := Final(env, fk, Start(now), steps).st;
            Pruner.Pass(fk, st, choices).completed <==>
              !fk || forall r :: r in RemovableSet(st, atts) ==> !Protected(st, r)
    ensures var st := Final(env, fk, Start(now), steps).st;
            Pruner.Pass(fk, st, choices).completed ==>
              (id in Pruner.Prune(fk, st, choices).snaps <==>
                 || Newest(st.snaps, id)
                 || Locked(st.snaps[id], st.now)
                 || forall att :: att in atts && att.source == st.snaps[id].source ==> st.snaps[id].created >= st.now - att.retention)
  {
    var st := Final(env, fk, Start(now), steps).st;
    SteadyState(env, fk, now, steps);
    DistinctIsSettled(st, atts);
    PassCompletesWhen(fk, st, atts, choices);
    if Pruner.Pass(fk, st, choices).completed {
      SettledSurvivors(fk, st, atts, choices, id);
    }
  }

  lemma StoppedExactWhen(st: State, choices: seq<Pruner.Choice>, gone: set<nat>)
    requires Exact(st) && Pruner.Pass(true, st, choices) == Pruner.Outcome(Pruner.Drop(st, gone), false)
    ensures Exact(Pruner.Prune(true, st, choices)) <==> AllRows(Pruner.Picked(st.snaps, gone)) <= AllRows(st.snaps - gone)
  {
    Pruner.AllRowsSplit(st.snaps, gone);
  }

  /** Otherwise it stops at the first protected removable snapshot b, met by the m-th
      attachment. Then chunks and rows still agree if and only if every chunk of what was
      deleted before b is named by another snapshot. */
  lemma StoppedPassInSteadyRuns(env: Env, now: int, steps: seq<Step>,
                                atts: seq<Pruner.Attachment>, choices: seq<Pruner.Choice>, m: nat, b: nat)
    requires Assumptions(env) && ValidRun(env, true, Start(now), steps)
    requires SteadyRun(env, true, Start(now), steps) && LosslessRun(env, true, Start(now), steps)
    requires var st := Final(env, true, Start(now), steps).st;
             Pruner.PassFits(true, st, atts, choices) && m < |atts| && FirstProtected(st, atts, m, b)
    ensures var st := Final(env, true, Start(now), steps).st;
            var gone := DeletedBefore(st, atts, m, b);
            && Pruner.Pass(true, st, choices) == Pruner.Outcome(Pruner.Drop(st, gone), false)
            && (Exact(Pruner.Prune(true, st, choices)) <==>
                  AllRows(Pruner.Picked(st.snaps, gone)) <= AllRows(st.snaps - gone))
  {
    var st := Final(env, true, Start(now), steps).st;
    SteadyState(env, true, now, steps);
    PassStopsAt(st, atts, choices, m, b);
    StartSound(env, now);
    RunExact(env, true, Start(now), steps);
    StoppedExactWhen(st, choices, DeletedBefore(st, atts, m, b));
  }
}
