/** Retention and garbage collection: prune_expired_snapshots in app/core/scheduler.py. */
module Pruner {
  import opened Basics
  import opened Hashing
  import opened Cas
  import opened Records

  /** An attachment of an active policy to a source. */
  datatype Attachment = Attachment(source: nat, retention: int)

  // ----- deleting snapshots -----

  function Picked(snaps: Snapshots, ids: set<nat>): Snapshots {
    map id | id in snaps && id in ids :: snaps[id]
  }

  /** What happens to the rows and the chunks when a set of snapshots goes. */
  ghost function Drop(st: State, ids: set<nat>): State {
    var left := st.snaps - ids;
    var freed := AllRows(Picked(st.snaps, ids)) - AllRows(left);
    st.(disk := st.disk - freed, snaps := left)
  }

  lemma AllRowsIff(snaps: Snapshots)
    ensures forall d :: d in AllRows(snaps) <==> Referenced(snaps, d)
  {
  }

  lemma AllRowsSplit(snaps: Snapshots, ids: set<nat>)
    ensures AllRows(snaps) == AllRows(snaps - ids) + AllRows(Picked(snaps, ids))
  {
    var some := Picked(snaps, ids);
    forall d | d in AllRows(snaps)
      ensures d in AllRows(snaps - ids) || d in AllRows(some)
    {
      var id :| id in snaps && d in RowSet(snaps[id]);
      if id in ids {
        assert id in some && some[id] == snaps[id];
      } else {
        var rest := snaps - ids;
        assert id in rest && rest[id] == snaps[id];
        assert d in AllRows(rest);
      }
    }
  }

  /** One at a time or all together: the order of deletions does not matter. */
  lemma DropUnion(st: State, a: set<nat>, b: set<nat>)
    ensures Drop(Drop(st, a), b) == Drop(st, a + b)
  {
    var mid := st.snaps - a;
    var left := mid - b;
    assert left == st.snaps - (a + b);
    var inA := Picked(st.snaps, a);
    var inB := Picked(mid, b);
    var inAB := Picked(st.snaps, a + b);
    AllRowsSplit(mid, b);
    AllRowsSplit(inAB, a);
    assert inAB - a == inB;
    assert Picked(inAB, a) == inA;
    assert (st.disk - (AllRows(inA) - AllRows(mid))) - (AllRows(inB) - AllRows(left))
        == st.disk - (AllRows(inAB) - AllRows(left));
  }

  lemma DropNothing(st: State)
    ensures Drop(st, {}) == st
  {
    assert st.snaps - {} == st.snaps;
    assert Picked(st.snaps, {}).Keys == {};
    assert st.disk - {} == st.disk;
  }

  /** A row of another table names this snapshot. */
  ghost predicate Blocked(st: State, id: nat) {
    HasChild(st.snaps, id) || id in st.restoreJobs
  }

  // ----- one pass -----

  ghost predicate Doomed(st: State, att: Attachment, keep: Option<nat>, id: nat) {
    && id in st.snaps
    && st.snaps[id].source == att.source
    && st.snaps[id].created < st.now - att.retention
    && Some(id) != keep
    && !Locked(st.snaps[id], st.now)
  }

  /** How far a pass got; an integrity error of the database stops it. */
  datatype Outcome = Outcome(st: State, completed: bool)

  /** The answers of one attachment's queries: the newest snapshot, and the
      snapshots to delete, oldest first. */
  datatype Choice = Choice(keep: Option<nat>, order: seq<nat>)

  ghost predicate Fits(st: State, att: Attachment, c: Choice) {
    && IsLatest(st.snaps, att.source, c.keep)
    && (forall id :: id in c.order <==> Doomed(st, att, c.keep, id))
    && (forall i :: 0 <= i < |c.order| ==> c.order[i] in st.snaps)
    && (forall i, j :: 0 <= i < j < |c.order| ==> c.order[i] != c.order[j])
    && (forall i, j :: 0 <= i < j < |c.order| ==> st.snaps[c.order[i]].created <= st.snaps[c.order[j]].created)
  }

  ghost function DeleteInOrder(fk: bool, st: State, order: seq<nat>): Outcome
    decreases |order|
  {
    if order == [] then Outcome(st, true)
    else if fk && Blocked(st, order[0]) then Outcome(st, false)
    else DeleteInOrder(fk, Drop(st, {order[0]}), order[1..])
  }

  ghost function Pass(fk: bool, st: State, choices: seq<Choice>): Outcome
    decreases |choices|
  {
    if choices == [] then Outcome(st, true) else
      var o := DeleteInOrder(fk, st, choices[0].order);
      if o.completed then Pass(fk, o.st, choices[1..]) else o
  }

  ghost predicate PassFits(fk: bool, st: State, atts: seq<Attachment>, choices: seq<Choice>)
    decreases |atts|
  {
    if atts == [] then choices == [] else
      && choices != []
      && Fits(st, atts[0], choices[0])
      && var o := DeleteInOrder(fk, st, choices[0].order);
         if o.completed then PassFits(fk, o.st, atts[1..], choices[1..]) else |choices| == 1
  }

  /** The whole job. An aborted pass rolls the rows back; deleted chunk files stay deleted. */
  ghost function Prune(fk: bool, st: State, choices: seq<Choice>): State {
    var o := Pass(fk, st, choices);
    if o.completed then o.st else st.(disk := o.st.disk)
  }

  // ----- how far a pass gets -----

  /** The deletions a pass attempts, in order. */
  function Attempts(choices: seq<Choice>): seq<nat> {
    Flatten(Map((c: Choice) => c.order, choices))
  }

  /** When its turn comes, the i-th snapshot of the list is still named by a restore job
      or by a snapshot that is not deleted before it. */
  ghost predicate StillBlocked(fk: bool, st: State, order: seq<nat>, i: nat)
    requires i < |order|
  {
    fk && (order[i] in st.restoreJobs
           || exists c :: c in st.snaps && st.snaps[c].parent == Some(order[i]) && c !in order[..i])
  }

  /** How many deletions the database lets through. */
  ghost function Reach(fk: bool, st: State, order: seq<nat>): (k: nat)
    ensures k <= |order|
    decreases |order|
  {
    if order == [] then 0 else
      var k := |order| - 1;
      if Reach(fk, st, order[..k]) < k then Reach(fk, st, order[..k])
      else if StillBlocked(fk, st, order, k) then k else k + 1
  }

  /** Reach is the first position that is still blocked. */
  lemma {:induction false} ReachIsFirst(fk: bool, st: State, order: seq<nat>)
    ensures forall i :: 0 <= i < Reach(fk, st, order) ==> !StillBlocked(fk, st, order, i)
    ensures Reach(fk, st, order) < |order| ==> StillBlocked(fk, st, order, Reach(fk, st, order))
    decreases |order|
  {
    if order == [] {
    } else {
      var front := order[..|order| - 1];
      ReachIsFirst(fk, st, front);
      forall i | 0 <= i < |front|
        ensures StillBlocked(fk, st, front, i) == StillBlocked(fk, st, order, i)
      {
        assert front[..i] == order[..i];
      }
    }
  }

  lemma DeleteHead(fk: bool, st: State, id: nat, order: seq<nat>)
    ensures DeleteInOrder(fk, st, [id] + order)
         == if fk && Blocked(st, id) then Outcome(st, false) else DeleteInOrder(fk, Drop(st, {id}), order)
  {
    assert ([id] + order)[1..] == order;
  }

  lemma {:induction false} DeleteInOrderAppend(fk: bool, st: State, a: seq<nat>, b: seq<nat>)
    ensures var o := DeleteInOrder(fk, st, a);
            DeleteInOrder(fk, st, a + b) == if o.completed then DeleteInOrder(fk, o.st, b) else o
    decreases |a|
  {
    if a == [] {
      assert a + b == b;
    } else {
      assert (a + b)[1..] == a[1..] + b;
      if !(fk && Blocked(st, a[0])) {
        DeleteInOrderAppend(fk, Drop(st, {a[0]}), a[1..], b);
      }
    }
  }

  lemma BlockedAtLast(fk: bool, st: State, front: seq<nat>, last: nat)
    ensures (fk && Blocked(Drop(st, Elements(front)), last)) <==> StillBlocked(fk, st, front + [last], |front|)
  {
    var order, now := front + [last], Drop(st, Elements(front));
    assert order[|front|] == last && order[..|front|] == front;
    if HasChild(now.snaps, last) {
      var c :| c in now.snaps && now.snaps[c].parent == Some(last);
      assert c in st.snaps && st.snaps[c].parent == Some(last) && c !in order[..|front|];
    }
    if c :| c in st.snaps && st.snaps[c].parent == Some(last) && c !in order[..|front|] {
      assert c in now.snaps && now.snaps[c].parent == Some(last);
    }
  }

  lemma LastDeletion(fk: bool, st: State, front: seq<nat>, last: nat)
    ensures var order, now := front + [last], Drop(st, Elements(front));
            DeleteInOrder(fk, now, [last]) ==
              if StillBlocked(fk, st, order, |front|) then Outcome(now, false) else Outcome(Drop(st, Elements(order)), true)
  {
    var now := Drop(st, Elements(front));
    BlockedAtLast(fk, st, front, last);
    assert Elements([last]) == {last};
    ElementsAppend(front, [last]);
    DropUnion(st, Elements(front), {last});
    DeleteHead(fk, now, last, []);
    assert [last] + [] == [last];
  }

  /** Deleting one by one ends before the first snapshot that is still blocked, and the
      state is the one of deleting all before it together. */
  lemma {:induction false} DeleteReaches(fk: bool, st: State, order: seq<nat>)
    ensures var k := Reach(fk, st, order);
            DeleteInOrder(fk, st, order) == Outcome(Drop(st, Elements(order[..k])), k == |order|)
    decreases |order|
  {
    if order == [] {
      assert Elements(order[..0]) == {};
      DropNothing(st);
    } else {
      var front, last := order[..|order| - 1], order[|order| - 1];
      var k := Reach(fk, st, front);
      DeleteReaches(fk, st, front);
      assert order == front + [last];
      DeleteInOrderAppend(fk, st, front, [last]);
      if k < |front| {
        assert order[..k] == front[..k];
      } else {
        assert front[..k] == front && order[..k] == front && order[..k + 1] == order;
        LastDeletion(fk, st, front, last);
      }
    }
  }

  lemma AttemptsSplit(choices: seq<Choice>)
    requires choices != []
    ensures Attempts(choices) == choices[0].order + Attempts(choices[1..])
  {
    var orders := Map((c: Choice) => c.order, choices);
    assert orders[1..] == Map((c: Choice) => c.order, choices[1..]);
  }

  lemma {:induction false} PassIsAttempts(fk: bool, st: State, choices: seq<Choice>)
    ensures Pass(fk, st, choices) == DeleteInOrder(fk, st, Attempts(choices))
    decreases |choices|
  {
    if choices == [] {
      assert Attempts(choices) == [];
    } else {
      AttemptsSplit(choices);
      PassIsAttempts(fk, DeleteInOrder(fk, st, choices[0].order).st, choices[1..]);
      DeleteInOrderAppend(fk, st, choices[0].order, Attempts(choices[1..]));
    }
  }

  /** The outcome of any pass, from the state before it and the answers of its queries:
      everything before the first attempt that is still blocked is gone. */
  lemma PassReaches(fk: bool, st: State, choices: seq<Choice>)
    ensures var order := Attempts(choices);
            var k := Reach(fk, st, order);
            Pass(fk, st, choices) == Outcome(Drop(st, Elements(order[..k])), k == |order|)
  {
    PassIsAttempts(fk, st, choices);
    DeleteReaches(fk, st, Attempts(choices));
  }

  /** What a pass deletes before the database stops it, if it does. */
  ghost function Deleted(fk: bool, st: State, choices: seq<Choice>): set<nat> {
    Elements(Attempts(choices)[..Reach(fk, st, Attempts(choices))])
  }

  /** The pass is not stopped, or the rows that come back name no chunk that is gone. */
  ghost predicate Spares(fk: bool, st: State, choices: seq<Choice>) {
    var gone := Deleted(fk, st, choices);
    || Reach(fk, st, Attempts(choices)) == |Attempts(choices)|
    || AllRows(Picked(st.snaps, gone)) <= AllRows(st.snaps - gone)
  }

  lemma DeletesAll(fk: bool, st: State, choices: seq<Choice>)
    requires Pass(fk, st, choices).completed
    ensures Pass(fk, st, choices).st == Drop(st, Elements(Attempts(choices)))
  {
    PassReaches(fk, st, choices);
    assert Attempts(choices)[..|Attempts(choices)|] == Attempts(choices);
  }

  lemma UnforcedCompletes(st: State, choices: seq<Choice>)
    ensures Pass(false, st, choices).completed
  {
    PassReaches(false, st, choices);
    ReachIsFirst(false, st, Attempts(choices));
  }

  // ----- the job itself -----

  method Oldest(snaps: Snapshots, among: set<nat>) returns (oldest: nat)
    requires among != {} && among <= snaps.Keys
    ensures oldest in among && forall id :: id in among ==> snaps[oldest].created <= snaps[id].created
  {
    oldest :| oldest in among;
    var rest := among - {oldest};
    while rest != {}
      invariant rest <= among && oldest in among
      invariant forall id :: id in among && id !in rest ==> snaps[oldest].created <= snaps[id].created
      decreases |rest|
    {
      var id :| id in rest;
      if snaps[id].created < snaps[oldest].created {
        oldest := id;
      }
      rest := rest - {id};
    }
  }

  /** `where(source, created_at < cutoff).order_by(created_at.asc())` */
  method QueryExpired(db: Database, source: nat, cutoff: int) returns (ids: seq<nat>)
    ensures forall id :: id in ids <==> id in db.snaps && db.snaps[id].source == source && db.snaps[id].created < cutoff
    ensures forall i :: 0 <= i < |ids| ==> ids[i] in db.snaps
    ensures forall i, j :: 0 <= i < j < |ids| ==> ids[i] != ids[j] && db.snaps[ids[i]].created <= db.snaps[ids[j]].created
  {
    ids := [];
    var rest := set id | id in db.snaps && db.snaps[id].source == source && db.snaps[id].created < cutoff;
    ghost var all := rest;
    while rest != {}
      invariant rest <= all && all <= db.snaps.Keys
      invariant forall id :: id in ids <==> id in all && id !in rest
      invariant forall i :: 0 <= i < |ids| ==> ids[i] in db.snaps
      invariant forall i, j :: 0 <= i < j < |ids| ==> ids[i] != ids[j] && db.snaps[ids[i]].created <= db.snaps[ids[j]].created
      invariant forall i, id :: 0 <= i < |ids| && id in rest ==> db.snaps[ids[i]].created <= db.snaps[id].created
      decreases |rest|
    {
      var id := Oldest(db.snaps, rest);
      rest := rest - {id};
      ids := ids + [id];
    }
  }

  /** Is some row left that names this chunk? */
  method StillReferenced(db: Database, hash: Digest) returns (found: bool)
    ensures found <==> Referenced(db.snaps, hash)
  {
    var rest := db.snaps.Keys;
    while rest != {}
      invariant rest <= db.snaps.Keys
      invariant forall id :: id in db.snaps && id !in rest ==> hash !in RowSet(db.snaps[id])
      decreases |rest|
    {
      var id :| id in rest;
      if hash in RowHashes(db.snaps[id]) {
        return true;
      }
      rest := rest - {id};
    }
    return false;
  }

  /** Is some row of another table naming this snapshot? */
  method ForeignKeyBlocks(db: Database, id: nat) returns (blocked: bool)
    ensures blocked <==> Blocked(db.Current(), id)
  {
    var rest := db.snaps.Keys;
    while rest != {}
      invariant rest <= db.snaps.Keys
      invariant forall c :: c in db.snaps && c !in rest ==> db.snaps[c].parent != Some(id)
      decreases |rest|
    {
      var c :| c in rest;
      if db.snaps[c].parent == Some(id) {
        return true;
      }
      rest := rest - {c};
    }
    return id in db.restoreJobs;
  }

  /** The GC loop over the hashes of a snapshot that is already gone. */
  method CollectGarbage(db: Database, chunkHashes: seq<Digest>)
    modifies db.cas
    ensures db.cas.files == old(db.cas.files) - (Elements(chunkHashes) - AllRows(db.snaps))
  {
    ghost var start := db.cas.files;
    for i := 0 to |chunkHashes|
      invariant db.cas.files == start - (Elements(chunkHashes[..i]) - AllRows(db.snaps))
    {
      assert Elements(chunkHashes[..i + 1]) == Elements(chunkHashes[..i]) + {chunkHashes[i]} by {
        assert chunkHashes[..i + 1] == chunkHashes[..i] + [chunkHashes[i]];
      }
      AllRowsIff(db.snaps);
      var stillReferenced := StillReferenced(db, chunkHashes[i]);
      if !stillReferenced {
        var _ := db.cas.Delete(chunkHashes[i]);
      }
    }
    assert chunkHashes[..|chunkHashes|] == chunkHashes;
  }

  lemma RowsOfOne(id: nat, s: Snapshot)
    ensures AllRows(map[id := s]) == RowSet(s)
  {
    var one := map[id := s];
    assert forall d :: d in RowSet(s) ==> id in one && d in RowSet(one[id]);
  }

  method DeleteSnapshot(db: Database, id: nat)
    requires id in db.snaps
    modifies db`snaps, db.cas
    ensures db.Current() == Drop(old(db.Current()), {id})
  {
    ghost var st := db.Current();
    var chunkHashes := RowHashes(db.snaps[id]);
    db.snaps := db.snaps - {id};
    CollectGarbage(db, chunkHashes);
    assert Picked(st.snaps, {id}) == map[id := st.snaps[id]];
    RowsOfOne(id, st.snaps[id]);
  }

  /** `db.delete(snapshot); db.flush()` and the GC loop, or an integrity error. */
  method DeleteUnlessBlocked(db: Database, id: nat) returns (deleted: bool)
    requires id in db.snaps
    modifies db`snaps, db.cas
    ensures deleted <==> !(db.enforcesForeignKeys && Blocked(old(db.Current()), id))
    ensures db.Current() == if deleted then Drop(old(db.Current()), {id}) else old(db.Current())
  {
    if db.enforcesForeignKeys {
      var blocked := ForeignKeyBlocks(db, id);
      if blocked {
        return false;
      }
    }
    DeleteSnapshot(db, id);
    return true;
  }

  /** The expired snapshots that are neither the newest nor locked, in query order. */
  ghost function Kept(st: State, keep: Option<nat>, expired: seq<nat>): seq<nat>
    requires forall i :: 0 <= i < |expired| ==> expired[i] in st.snaps
  {
    if expired == [] then [] else
      (if Some(expired[0]) == keep || Locked(st.snaps[expired[0]], st.now) then [] else [expired[0]])
      + Kept(st, keep, expired[1..])
  }

  lemma KeptHead(st: State, keep: Option<nat>, expired: seq<nat>)
    requires expired != [] && forall i :: 0 <= i < |expired| ==> expired[i] in st.snaps
    ensures Kept(st, keep, expired)
         == if Some(expired[0]) == keep || Locked(st.snaps[expired[0]], st.now) then Kept(st, keep, expired[1..])
            else [expired[0]] + Kept(st, keep, expired[1..])
  {
  }

  lemma {:induction false} KeptOrder(st: State, keep: Option<nat>, expired: seq<nat>)
    requires forall i :: 0 <= i < |expired| ==> expired[i] in st.snaps
    requires forall i, j :: 0 <= i < j < |expired| ==>
               expired[i] != expired[j] && st.snaps[expired[i]].created <= st.snaps[expired[j]].created
    ensures var order := Kept(st, keep, expired);
            && (forall id :: id in order <==> id in expired && Some(id) != keep && !Locked(st.snaps[id], st.now))
            && (forall i :: 0 <= i < |order| ==> order[i] in st.snaps)
            && (forall i, j :: 0 <= i < j < |order| ==>
                  order[i] != order[j] && st.snaps[order[i]].created <= st.snaps[order[j]].created)
  {
    if expired == [] {
    } else {
      var rest := expired[1..];
      KeptOrder(st, keep, rest);
      assert forall id :: id in expired <==> id == expired[0] || id in rest;
      forall id | id in Kept(st, keep, rest)
        ensures id != expired[0] && st.snaps[expired[0]].created <= st.snaps[id].created
      {
        var k :| 0 <= k < |rest| && rest[k] == id;
        assert expired[k + 1] == id;
      }
    }
  }

  lemma KeptFits(st: State, att: Attachment, keep: Option<nat>, expired: seq<nat>)
    requires IsLatest(st.snaps, att.source, keep)
    requires forall id :: id in expired <==>
               id in st.snaps && st.snaps[id].source == att.source && st.snaps[id].created < st.now - att.retention
    requires forall i :: 0 <= i < |expired| ==> expired[i] in st.snaps
    requires forall i, j :: 0 <= i < j < |expired| ==>
               expired[i] != expired[j] && st.snaps[expired[i]].created <= st.snaps[expired[j]].created
    ensures Fits(st, att, Choice(keep, Kept(st, keep, expired)))
  {
    KeptOrder(st, keep, expired);
  }

  /** The loop has only removed snapshots outside `todo`. */
  ghost predicate Unpruned(st: State, cur: State, todo: seq<nat>) {
    && cur.now == st.now
    && cur.snaps.Keys <= st.snaps.Keys && (forall id :: id in cur.snaps ==> cur.snaps[id] == st.snaps[id])
    && (forall k :: 0 <= k < |todo| ==> todo[k] in cur.snaps && todo[k] in st.snaps)
    && (forall i, j :: 0 <= i < j < |todo| ==> todo[i] != todo[j])
  }

  lemma UnprunedTail(st: State, cur: State, todo: seq<nat>)
    requires todo != [] && Unpruned(st, cur, todo)
    ensures Unpruned(st, cur, todo[1..]) && Unpruned(st, Drop(cur, {todo[0]}), todo[1..])
    ensures cur.snaps[todo[0]] == st.snaps[todo[0]]
  {
  }

  method DeleteExpired(db: Database, mostRecent: Option<nat>, expired: seq<nat>) returns (completed: bool)
    requires Unpruned(db.Current(), db.Current(), expired)
    modifies db`snaps, db.cas
    ensures Unpruned(old(db.Current()), old(db.Current()), expired)
    ensures DeleteInOrder(db.enforcesForeignKeys, old(db.Current()), Kept(old(db.Current()), mostRecent, expired))
         == Outcome(db.Current(), completed)
  {
    ghost var st, fk := db.Current(), db.enforcesForeignKeys;
    for i := 0 to |expired|
      invariant Unpruned(st, db.Current(), expired[i..])
      invariant DeleteInOrder(fk, st, Kept(st, mostRecent, expired)) == DeleteInOrder(fk, db.Current(), Kept(st, mostRecent, expired[i..]))
    {
      var id := expired[i];
      ghost var cur := db.Current();
      assert expired[i..][0] == id && expired[i..][1..] == expired[i + 1..];
      UnprunedTail(st, cur, expired[i..]);
      KeptHead(st, mostRecent, expired[i..]);
      DeleteHead(fk, cur, id, Kept(st, mostRecent, expired[i + 1..]));
      if Some(id) == mostRecent {
        continue;
      }
      if Locked(db.snaps[id], db.now) {
        continue;
      }
      var deleted := DeleteUnlessBlocked(db, id);
      if !deleted {
        return false;
      }
    }
    return true;
  }

  /** One attachment of the pass. */
  method PruneAttachment(db: Database, att: Attachment) returns (completed: bool, ghost choice: Choice)
    modifies db`snaps, db.cas
    ensures Fits(old(db.Current()), att, choice)
    ensures DeleteInOrder(db.enforcesForeignKeys, old(db.Current()), choice.order) == Outcome(db.Current(), completed)
  {
    var mostRecent := db.QueryLatest(att.source);
    var expired := QueryExpired(db, att.source, db.now - att.retention);
    KeptFits(db.Current(), att, mostRecent, expired);
    choice := Choice(mostRecent, Kept(db.Current(), mostRecent, expired));
    completed := DeleteExpired(db, mostRecent, expired);
  }

  lemma {:induction false} PassSnoc(fk: bool, st: State, choices: seq<Choice>, c: Choice)
    requires Pass(fk, st, choices).completed
    ensures Pass(fk, st, choices + [c]) == DeleteInOrder(fk, Pass(fk, st, choices).st, c.order)
    decreases |choices|
  {
    if choices == [] {
      assert choices + [c] == [c];
    } else {
      PassSnoc(fk, DeleteInOrder(fk, st, choices[0].order).st, choices[1..], c);
      assert (choices + [c])[1..] == choices[1..] + [c];
    }
  }

  lemma {:induction false} PassFitsSnoc(fk: bool, st: State, atts: seq<Attachment>, i: nat, choices: seq<Choice>, c: Choice)
    requires i < |atts| && PassFits(fk, st, atts[..i], choices) && Pass(fk, st, choices).completed
    requires Fits(Pass(fk, st, choices).st, atts[i], c)
    ensures PassFits(fk, st, atts[..i + 1], choices + [c])
    ensures Pass(fk, st, choices + [c]).completed || PassFits(fk, st, atts, choices + [c])
    decreases i
  {
    if i == 0 {
      assert choices + [c] == [c] && atts[..1] == [atts[0]];
    } else {
      assert atts[..i][1..] == atts[1..][..i - 1] && atts[..i + 1][1..] == atts[1..][..i];
      PassFitsSnoc(fk, DeleteInOrder(fk, st, choices[0].order).st, atts[1..], i - 1, choices[1..], c);
      assert (choices + [c])[1..] == choices[1..] + [c];
    }
  }

  method PruneAttachments(db: Database, atts: seq<Attachment>) returns (completed: bool, ghost choices: seq<Choice>)
    modifies db`snaps, db.cas
    ensures PassFits(db.enforcesForeignKeys, old(db.Current()), atts, choices)
    ensures Pass(db.enforcesForeignKeys, old(db.Current()), choices) == Outcome(db.Current(), completed)
  {
    ghost var st, fk := db.Current(), db.enforcesForeignKeys;
    choices := [];
    for i := 0 to |atts|
      invariant PassFits(fk, st, atts[..i], choices)
      invariant Pass(fk, st, choices) == Outcome(db.Current(), true)
    {
      ghost var choice;
      completed, choice := PruneAttachment(db, atts[i]);
      PassSnoc(fk, st, choices, choice);
      PassFitsSnoc(fk, st, atts, i, choices, choice);
      choices := choices + [choice];
      if !completed {
        return false, choices;
      }
    }
    assert atts[..|atts|] == atts;
    return true, choices;
  }

  lemma PassKeepsRest(fk: bool, st: State, choices: seq<Choice>)
    ensures var o := Pass(fk, st, choices).st;
            o.now == st.now && o.nextId == st.nextId && o.restoreJobs == st.restoreJobs
  {
    PassReaches(fk, st, choices);
  }

  method PruneExpiredSnapshots(db: Database, atts: seq<Attachment>) returns (completed: bool, ghost choices: seq<Choice>)
    modifies db`snaps, db.cas
    ensures PassFits(db.enforcesForeignKeys, old(db.Current()), atts, choices)
    ensures completed <==> Pass(db.enforcesForeignKeys, old(db.Current()), choices).completed
    ensures db.Current() == Prune(db.enforcesForeignKeys, old(db.Current()), choices)
  {
    var committed := db.snaps;
    completed, choices := PruneAttachments(db, atts);
    if !completed {
      PassKeepsRest(db.enforcesForeignKeys, old(db.Current()), choices);
      db.snaps := committed;
    }
  }
}
