/** What a retention pass keeps, and when the database stops it: the promises of
    prune_expired_snapshots in app/core/scheduler.py. */
module Retention {
  import opened Basics
  import opened Hashing
  import opened Records
  import opened Pruner

  // ----- who survives -----

  ghost predicate Newest(snaps: Snapshots, id: nat) {
    && id in snaps
    && forall j :: j in snaps && snaps[j].source == snaps[id].source ==> snaps[j].created <= snaps[id].created
  }

  lemma NewestExists(snaps: Snapshots, source: nat, witness': nat) returns (newest: nat)
    requires witness' in snaps && snaps[witness'].source == source
    ensures newest in snaps && snaps[newest].source == source && Newest(snaps, newest)
  {
    newest := witness';
    var rest := snaps.Keys;
    while rest != {}
      invariant rest <= snaps.Keys && newest in snaps && snaps[newest].source == source
      invariant forall j :: j in snaps && j !in rest && snaps[j].source == source ==> snaps[j].created <= snaps[newest].created
      decreases |rest|
    {
      var id :| id in rest;
      if snaps[id].source == source && snaps[newest].created < snaps[id].created {
        newest := id;
      }
      rest := rest - {id};
    }
  }

  /** Some attachment of the pass selects the snapshot for deletion. */
  ghost predicate Chosen(st: State, atts: seq<Attachment>, choices: seq<Choice>, id: nat) {
    exists i :: 0 <= i < |atts| && i < |choices| && Doomed(st, atts[i], choices[i].keep, id)
  }

  lemma ChosenLater(st: State, gone: set<nat>, atts: seq<Attachment>, choices: seq<Choice>, id: nat)
    ensures Chosen(Drop(st, gone), atts, choices, id) <==> id !in gone && Chosen(st, atts, choices, id)
  {
    assert forall i :: 0 <= i < |atts| && i < |choices| ==>
             (Doomed(Drop(st, gone), atts[i], choices[i].keep, id) <==> id !in gone && Doomed(st, atts[i], choices[i].keep, id));
  }

  lemma ChosenSplit(st: State, atts: seq<Attachment>, choices: seq<Choice>, id: nat)
    requires |atts| == |choices| > 0
    ensures Chosen(st, atts, choices, id) <==>
              Doomed(st, atts[0], choices[0].keep, id) || Chosen(st, atts[1..], choices[1..], id)
  {
    if i :| 0 <= i < |atts[1..]| && i < |choices[1..]| && Doomed(st, atts[1..][i], choices[1..][i].keep, id) {
      assert Doomed(st, atts[i + 1], choices[i + 1].keep, id);
    }
    if i :| 0 < i < |atts| && i < |choices| && Doomed(st, atts[i], choices[i].keep, id) {
      assert Doomed(st, atts[1..][i - 1], choices[1..][i - 1].keep, id);
    }
  }

  /** A completed pass removes exactly the snapshots that some attachment selects. */
  lemma {:induction false} PassRemoves(fk: bool, st: State, atts: seq<Attachment>, choices: seq<Choice>)
    requires PassFits(fk, st, atts, choices) && Pass(fk, st, choices).completed
    ensures |choices| == |atts|
    ensures Pass(fk, st, choices).st == Drop(st, Elements(Attempts(choices)))
    ensures forall id :: id in Attempts(choices) <==> Chosen(st, atts, choices, id)
    decreases |atts|
  {
    DeletesAll(fk, st, choices);
    if atts == [] {
      assert Attempts(choices) == [];
    } else {
      var first := choices[0].order;
      DeleteReaches(fk, st, first);
      assert first[..|first|] == first;
      var st' := Drop(st, Elements(first));
      PassRemoves(fk, st', atts[1..], choices[1..]);
      AttemptsSplit(choices);
      forall id
        ensures id in Attempts(choices) <==> Chosen(st, atts, choices, id)
      {
        ChosenSplit(st, atts, choices, id);
        ChosenLater(st, Elements(first), atts[1..], choices[1..], id);
      }
    }
  }

  lemma AttachmentKeepsNewest(fk: bool, st: State, att: Attachment, c: Choice, id: nat) returns (j: nat)
    requires Fits(st, att, c) && Newest(st.snaps, id)
    ensures var left := DeleteInOrder(fk, st, c.order).st.snaps;
            j in left && Newest(left, j) && j in st.snaps && left[j] == st.snaps[j]
    ensures Newest(st.snaps, j) && st.snaps[j].source == st.snaps[id].source
  {
    DeleteReaches(fk, st, c.order);
    assert forall x :: x in Elements(c.order[..Reach(fk, st, c.order)]) ==> x in c.order;
    j := if st.snaps[id].source == att.source then c.keep.value else id;
    assert j !in c.order;
  }

  /** Whatever the queries answer among equally new snapshots, and whether or
      not the pass completes, a source keeps one of its newest snapshots. */
  lemma {:induction false} SourceNeverEmptied(fk: bool, st: State, atts: seq<Attachment>, choices: seq<Choice>, id: nat)
    requires PassFits(fk, st, atts, choices) && Newest(st.snaps, id)
    ensures exists j :: j in st.snaps && st.snaps[j].source == st.snaps[id].source && Newest(st.snaps, j)
                        && j in Pass(fk, st, choices).st.snaps && Pass(fk, st, choices).st.snaps[j] == st.snaps[j]
    decreases |atts|
  {
    if atts == [] {
    } else {
      var o := DeleteInOrder(fk, st, choices[0].order);
      var j := AttachmentKeepsNewest(fk, st, atts[0], choices[0], id);
      if o.completed {
        SourceNeverEmptied(fk, o.st, atts[1..], choices[1..], j);
        var i :| i in o.st.snaps && o.st.snaps[i].source == o.st.snaps[j].source && Newest(o.st.snaps, i)
                 && i in Pass(fk, o.st, choices[1..]).st.snaps && Pass(fk, o.st, choices[1..]).st.snaps[i] == o.st.snaps[i];
        DeleteReaches(fk, st, choices[0].order);
        assert st.snaps[i].created >= st.snaps[j].created;
      }
    }
  }

  /** The query for the newest snapshot answers with one that was newest before the pass. */
  lemma {:induction false} KeptIsNewest(fk: bool, st: State, atts: seq<Attachment>, choices: seq<Choice>, i: nat, id: nat)
    requires PassFits(fk, st, atts, choices) && i < |atts| && i < |choices|
    requires id in st.snaps && st.snaps[id].source == atts[i].source
    ensures choices[i].keep.Some? && Newest(st.snaps, choices[i].keep.value)
    ensures st.snaps[choices[i].keep.value].source == atts[i].source
    decreases i
  {
    if i == 0 {
    } else {
      var newest := NewestExists(st.snaps, atts[i].source, id);
      var j := AttachmentKeepsNewest(fk, st, atts[0], choices[0], newest);
      var o := DeleteInOrder(fk, st, choices[0].order);
      KeptIsNewest(fk, o.st, atts[1..], choices[1..], i - 1, j);
      DeleteReaches(fk, st, choices[0].order);
      assert st.snaps[choices[i].keep.value].created >= st.snaps[j].created;
    }
  }

  /** The survivors of a completed pass: locked, or for every attached policy not older
      than its cutoff or the answer to its query for the newest, which is one of the newest. */
  lemma Survivors(fk: bool, st: State, atts: seq<Attachment>, choices: seq<Choice>, id: nat)
    requires PassFits(fk, st, atts, choices) && Pass(fk, st, choices).completed && id in st.snaps
    ensures |choices| == |atts|
    ensures id in Prune(fk, st, choices).snaps <==>
              || Locked(st.snaps[id], st.now)
              || forall i :: 0 <= i < |atts| && atts[i].source == st.snaps[id].source ==>
                   st.snaps[id].created >= st.now - atts[i].retention || choices[i].keep == Some(id)
    ensures forall i :: 0 <= i < |atts| && atts[i].source == st.snaps[id].source ==>
              choices[i].keep.Some? && Newest(st.snaps, choices[i].keep.value)
              && st.snaps[choices[i].keep.value].source == st.snaps[id].source
  {
    PassRemoves(fk, st, atts, choices);
    forall i | 0 <= i < |atts| && atts[i].source == st.snaps[id].source {
      KeptIsNewest(fk, st, atts, choices, i, id);
    }
  }

  ghost predicate Expired(st: State, atts: seq<Attachment>, id: nat) {
    id in st.snaps && exists att :: att in atts && att.source == st.snaps[id].source && st.snaps[id].created < st.now - att.retention
  }

  /** The snapshots a pass is meant to remove; attachment order plays no part. */
  ghost predicate Removable(st: State, atts: seq<Attachment>, id: nat) {
    && id in st.snaps && Expired(st, atts, id)
    && !Newest(st.snaps, id) && !Locked(st.snaps[id], st.now)
  }

  ghost function RemovableSet(st: State, atts: seq<Attachment>): set<nat> {
    set id | id in st.snaps && Removable(st, atts, id)
  }

  /** An expired, unlocked snapshot that shares the place of the newest with another. */
  ghost predicate Tied(st: State, atts: seq<Attachment>, id: nat, other: nat) {
    && id != other && Newest(st.snaps, id) && Newest(st.snaps, other)
    && st.snaps[id].source == st.snaps[other].source
    && Expired(st, atts, id) && !Locked(st.snaps[id], st.now)
  }

  ghost predicate Settled(st: State, atts: seq<Attachment>) {
    forall id, other :: !Tied(st, atts, id, other)
  }

  lemma ExpiredBy(st: State, atts: seq<Attachment>, i: nat, id: nat)
    requires i < |atts| && id in st.snaps && atts[i].source == st.snaps[id].source
    requires st.snaps[id].created < st.now - atts[i].retention
    ensures Expired(st, atts, id)
  {
    assert atts[i] in atts;
  }

  /** Without such ties a completed pass removes exactly the removable snapshots. */
  lemma SettledPassRemoves(fk: bool, st: State, atts: seq<Attachment>, choices: seq<Choice>)
    requires PassFits(fk, st, atts, choices) && Pass(fk, st, choices).completed && Settled(st, atts)
    ensures Pass(fk, st, choices).st == Drop(st, RemovableSet(st, atts))
  {
    PassRemoves(fk, st, atts, choices);
    forall id | id in st.snaps
      ensures Chosen(st, atts, choices, id) <==> Removable(st, atts, id)
    {
      if Chosen(st, atts, choices, id) {
        var i :| 0 <= i < |atts| && Doomed(st, atts[i], choices[i].keep, id);
        KeptIsNewest(fk, st, atts, choices, i, id);
        ExpiredBy(st, atts, i, id);
        assert !Tied(st, atts, id, choices[i].keep.value);
      } else if Removable(st, atts, id) {
        var att :| att in atts && att.source == st.snaps[id].source && st.snaps[id].created < st.now - att.retention;
        var i :| 0 <= i < |atts| && atts[i] == att;
        KeptIsNewest(fk, st, atts, choices, i, id);
        assert Doomed(st, atts[i], choices[i].keep, id);
      }
    }
    assert Elements(Attempts(choices)) == RemovableSet(st, atts);
  }

  lemma SettledSurvivors(fk: bool, st: State, atts: seq<Attachment>, choices: seq<Choice>, id: nat)
    requires PassFits(fk, st, atts, choices) && Pass(fk, st, choices).completed && Settled(st, atts)
    requires id in st.snaps
    ensures id in Prune(fk, st, choices).snaps <==>
              || Newest(st.snaps, id)
              || Locked(st.snaps[id], st.now)
              || forall att :: att in atts && att.source == st.snaps[id].source ==> st.snaps[id].created >= st.now - att.retention
  {
    SettledPassRemoves(fk, st, atts, choices);
  }

  lemma SameAttachments(st: State, a: seq<Attachment>, b: seq<Attachment>)
    requires Elements(a) == Elements(b)
    ensures RemovableSet(st, a) == RemovableSet(st, b)
    ensures Settled(st, a) ==> Settled(st, b)
  {
    forall id | id in st.snaps
      ensures Expired(st, a, id) <==> Expired(st, b, id)
    {
      assert forall att :: att in a <==> att in Elements(a);
      assert forall att :: att in b <==> att in Elements(b);
    }
    forall id, other | Tied(st, b, id, other)
      ensures Tied(st, a, id, other)
    {
    }
  }

  lemma CompletedPassesAgree(fk: bool, st: State, a: seq<Attachment>, ca: seq<Choice>, b: seq<Attachment>, cb: seq<Choice>)
    requires PassFits(fk, st, a, ca) && PassFits(fk, st, b, cb) && Elements(a) == Elements(b) && Settled(st, a)
    requires Pass(fk, st, ca).completed && Pass(fk, st, cb).completed
    ensures Prune(fk, st, ca) == Prune(fk, st, cb)
  {
    SameAttachments(st, a, b);
    SettledPassRemoves(fk, st, a, ca);
    SettledPassRemoves(fk, st, b, cb);
  }

  // ----- ties are decided by the database -----

  lemma {:induction false} OldestExists(snaps: Snapshots, ids: set<nat>) returns (oldest: nat)
    requires ids != {} && ids <= snaps.Keys
    ensures oldest in ids && forall id :: id in ids ==> snaps[oldest].created <= snaps[id].created
    decreases ids
  {
    oldest :| oldest in ids;
    if ids == {oldest} {
    } else {
      var other := OldestExists(snaps, ids - {oldest});
      if snaps[other].created < snaps[oldest].created {
        oldest := other;
      }
    }
  }

  lemma {:induction false} ByAge(snaps: Snapshots, ids: set<nat>) returns (order: seq<nat>)
    requires ids <= snaps.Keys
    ensures forall id :: id in order <==> id in ids
    ensures forall i :: 0 <= i < |order| ==> order[i] in snaps
    ensures forall i, j :: 0 <= i < j < |order| ==> order[i] != order[j] && snaps[order[i]].created <= snaps[order[j]].created
    decreases ids
  {
    if ids == {} {
      order := [];
    } else {
      var oldest := OldestExists(snaps, ids);
      var rest := ByAge(snaps, ids - {oldest});
      order := [oldest] + rest;
      assert forall j :: 0 <= j < |rest| ==> rest[j] in ids - {oldest};
    }
  }

  lemma ChoiceKeeping(st: State, att: Attachment, id: nat) returns (c: Choice)
    requires Newest(st.snaps, id)
    ensures Fits(st, att, c) && id !in c.order
    ensures att.source == st.snaps[id].source ==> c.keep == Some(id)
  {
    var keep: Option<nat>;
    if att.source == st.snaps[id].source {
      keep := Some(id);
    } else if j :| j in st.snaps && st.snaps[j].source == att.source {
      var newest := NewestExists(st.snaps, att.source, j);
      keep := Some(newest);
    } else {
      keep := None;
    }
    var order := ByAge(st.snaps, set i | i in st.snaps && Doomed(st, att, keep, i));
    c := Choice(keep, order);
  }

  /** The database may answer with a given newest snapshot throughout a pass. */
  lemma {:induction false} PassKeeping(st: State, atts: seq<Attachment>, id: nat) returns (choices: seq<Choice>)
    requires Newest(st.snaps, id)
    ensures PassFits(false, st, atts, choices) && |choices| == |atts|
    ensures forall i :: 0 <= i < |atts| && atts[i].source == st.snaps[id].source ==> choices[i].keep == Some(id)
    decreases |atts|
  {
    if atts == [] {
      choices := [];
    } else {
      var c := ChoiceKeeping(st, atts[0], id);
      DeleteReaches(false, st, c.order);
      ReachIsFirst(false, st, c.order);
      assert c.order[..|c.order|] == c.order && id !in c.order;
      var st' := DeleteInOrder(false, st, c.order).st;
      var rest := PassKeeping(st', atts[1..], id);
      choices := [c] + rest;
      assert choices[1..] == rest;
      forall i | 0 <= i < |atts| && atts[i].source == st.snaps[id].source
        ensures choices[i].keep == Some(id)
      {
        if i > 0 {
          assert atts[1..][i - 1].source == st'.snaps[id].source;
        }
      }
    }
  }

  lemma TieDecides(st: State, atts: seq<Attachment>, id: nat, other: nat) returns (c: seq<Choice>, c': seq<Choice>)
    requires Tied(st, atts, id, other)
    ensures PassFits(false, st, atts, c) && PassFits(false, st, atts, c')
    ensures id in Prune(false, st, c).snaps && id !in Prune(false, st, c').snaps
  {
    c := PassKeeping(st, atts, id);
    c' := PassKeeping(st, atts, other);
    UnforcedCompletes(st, c);
    UnforcedCompletes(st, c');
    Survivors(false, st, atts, c, id);
    Survivors(false, st, atts, c', id);
    var att :| att in atts && att.source == st.snaps[id].source && st.snaps[id].created < st.now - att.retention;
    var i :| 0 <= i < |atts| && atts[i] == att;
    assert c'[i].keep == Some(other);
  }

  /** The outcome of a pass without foreign keys depends on the attachments alone if and
      only if no expired, unlocked snapshot shares the place of the newest. */
  lemma OutcomeDeterminedWhen(st: State, atts: seq<Attachment>)
    ensures Settled(st, atts) <==>
              forall c, c' :: PassFits(false, st, atts, c) && PassFits(false, st, atts, c') ==>
                Prune(false, st, c) == Prune(false, st, c')
  {
    if Settled(st, atts) {
      forall c, c' | PassFits(false, st, atts, c) && PassFits(false, st, atts, c')
        ensures Prune(false, st, c) == Prune(false, st, c')
      {
        UnforcedCompletes(st, c);
        UnforcedCompletes(st, c');
        CompletedPassesAgree(false, st, atts, c, atts, c');
      }
    } else {
      var id: nat, other: nat :| Tied(st, atts, id, other);
      var c, c' := TieDecides(st, atts, id, other);
      assert Prune(false, st, c) != Prune(false, st, c');
    }
  }

  // ----- when the database stops the pass -----

  /** No two snapshots of a source share a creation time. */
  ghost predicate DistinctTimes(snaps: Snapshots) {
    forall i, j :: i in snaps && j in snaps && snaps[i].source == snaps[j].source && snaps[i].created == snaps[j].created ==> i == j
  }

  /** No unlocked increment has the creation time of its parent. */
  ghost predicate NoTwins(st: State) {
    forall c, p :: c in st.snaps && p in st.snaps && c != p && st.snaps[c].parent == Some(p) && !Locked(st.snaps[c], st.now) ==>
      st.snaps[c].created != st.snaps[p].created
  }

  lemma DistinctIsSettled(st: State, atts: seq<Attachment>)
    requires DistinctTimes(st.snaps)
    ensures Settled(st, atts)
    ensures ParentsOfSameSource(st.snaps) ==> NoTwins(st)
  {
  }

  /** Named by a restore job, or by an increment that a pass does not delete before it:
      a locked one, or one that is not older. */
  ghost predicate Protected(st: State, id: nat)
    requires id in st.snaps
  {
    || id in st.restoreJobs
    || exists c :: c in st.snaps && st.snaps[c].parent == Some(id)
                   && (Locked(st.snaps[c], st.now) || st.snaps[c].created >= st.snaps[id].created)
  }

  ghost predicate ParentsOlder(snaps: Snapshots) {
    forall c, p :: c in snaps && p in snaps && snaps[c].parent == Some(p) ==> snaps[p].created < snaps[c].created
  }

  /** Where increments are newer than their parents, each of them protects its parent. */
  lemma EveryChildProtects(st: State, id: nat)
    requires id in st.snaps && ParentsOlder(st.snaps)
    ensures Protected(st, id) <==> Blocked(st, id)
  {
    if HasChild(st.snaps, id) {
      var c :| c in st.snaps && st.snaps[c].parent == Some(id);
      assert st.snaps[c].created >= st.snaps[id].created;
    }
  }

  lemma NewestAfterDrop(st: State, atts: seq<Attachment>, id: nat)
    requires id in st.snaps && id !in RemovableSet(st, atts)
    ensures Newest(Drop(st, RemovableSet(st, atts)).snaps, id) <==> Newest(st.snaps, id)
  {
    if !Newest(st.snaps, id) {
      var j := NewestExists(st.snaps, st.snaps[id].source, id);
      assert j in Drop(st, RemovableSet(st, atts)).snaps;
    }
  }

  lemma ExpiredSplit(st: State, first: Attachment, atts: seq<Attachment>, id: nat)
    ensures Expired(st, [first] + atts, id) <==> Expired(st, [first], id) || Expired(st, atts, id)
  {
    assert first in [first] + atts;
    assert forall att :: att in atts ==> att in [first] + atts;
    assert forall att :: att in [first] + atts ==> att == first || att in atts;
    assert first in [first];
  }

  /** Removing removable snapshots does not change which of the others are removable. */
  lemma RemovableAfterDrop(st: State, first: Attachment, atts: seq<Attachment>)
    ensures var gone := RemovableSet(st, [first]);
            && RemovableSet(st, [first] + atts) == gone + RemovableSet(Drop(st, gone), atts)
            && gone !! RemovableSet(Drop(st, gone), atts)
  {
    var gone := RemovableSet(st, [first]);
    var st' := Drop(st, gone);
    forall id | id in st.snaps
      ensures id in RemovableSet(st, [first] + atts) <==> id in gone || id in RemovableSet(st', atts)
    {
      ExpiredSplit(st, first, atts, id);
      if id !in gone {
        NewestAfterDrop(st, [first], id);
        assert Expired(st', atts, id) <==> Expired(st, atts, id);
      }
    }
    assert RemovableSet(st, [first] + atts) == gone + RemovableSet(st', atts);
  }

  lemma SettledSplit(st: State, first: Attachment, atts: seq<Attachment>)
    requires Settled(st, [first] + atts)
    ensures Settled(st, [first]) && Settled(Drop(st, RemovableSet(st, [first])), atts)
  {
    var st' := Drop(st, RemovableSet(st, [first]));
    forall id, other
      ensures !Tied(st, [first], id, other) && !Tied(st', atts, id, other)
    {
      assert !Tied(st, [first] + atts, id, other);
      if id in st.snaps && other in st.snaps {
        ExpiredSplit(st, first, atts, id);
        if id in st'.snaps && other in st'.snaps {
          NewestAfterDrop(st, [first], id);
          NewestAfterDrop(st, [first], other);
        }
      }
    }
  }

  lemma FirstOrder(fk: bool, st: State, atts: seq<Attachment>, choices: seq<Choice>)
    requires atts != [] && PassFits(fk, st, atts, choices) && Settled(st, [atts[0]])
    ensures Elements(choices[0].order) == RemovableSet(st, [atts[0]])
  {
    var keep := choices[0].keep;
    forall id | id in st.snaps
      ensures Doomed(st, atts[0], keep, id) <==> Removable(st, [atts[0]], id)
    {
      assert atts[0] in [atts[0]];
      if st.snaps[id].source == atts[0].source {
        assert Newest(st.snaps, keep.value);
        assert !Tied(st, [atts[0]], id, keep.value);
      }
    }
  }

  /** An unlocked increment older than its attempted parent is deleted before it, and, unless
      their creation times are equal, no other increment is. */
  lemma DeletedBeforeParent(st: State, att: Attachment, choice: Choice, i: nat, c: nat)
    requires Fits(st, att, choice) && ParentsOfSameSource(st.snaps) && i < |choice.order|
    requires c in st.snaps && st.snaps[c].parent == Some(choice.order[i])
    ensures !Locked(st.snaps[c], st.now) && st.snaps[c].created < st.snaps[choice.order[i]].created ==> c in choice.order[..i]
    ensures NoTwins(st) && c in choice.order[..i] ==>
              !Locked(st.snaps[c], st.now) && st.snaps[c].created < st.snaps[choice.order[i]].created
  {
    var order, r := choice.order, choice.order[i];
    assert r in order && Doomed(st, att, choice.keep, r);
    if c in order[..i] {
      var j :| 0 <= j < i && order[..i][j] == c;
      assert order[j] == c && c in order && c != r;
    }
    if !Locked(st.snaps[c], st.now) && st.snaps[c].created < st.snaps[r].created {
      assert Doomed(st, att, choice.keep, c);
      var j :| 0 <= j < |order| && order[j] == c;
      assert j < i;
      assert order[..i][j] == c;
    }
  }

  /** When its turn comes, only a protected snapshot is still blocked; and, unless it shares
      its creation time with an increment, each protected one is. */
  lemma BlockedAtTurn(st: State, att: Attachment, choice: Choice, i: nat)
    requires Fits(st, att, choice) && ParentsOfSameSource(st.snaps) && i < |choice.order|
    ensures StillBlocked(true, st, choice.order, i) ==> Protected(st, choice.order[i])
    ensures NoTwins(st) && Protected(st, choice.order[i]) ==> StillBlocked(true, st, choice.order, i)
  {
    forall c | c in st.snaps && st.snaps[c].parent == Some(choice.order[i]) {
      DeletedBeforeParent(st, att, choice, i, c);
    }
  }

  lemma FirstGoesWhen(st: State, atts: seq<Attachment>, choices: seq<Choice>)
    requires atts != [] && PassFits(true, st, atts, choices) && Settled(st, [atts[0]]) && ParentsOfSameSource(st.snaps)
    ensures (forall id :: id in RemovableSet(st, [atts[0]]) ==> !Protected(st, id)) ==>
              DeleteInOrder(true, st, choices[0].order).completed
    ensures NoTwins(st) && DeleteInOrder(true, st, choices[0].order).completed ==>
              forall id :: id in RemovableSet(st, [atts[0]]) ==> !Protected(st, id)
  {
    var order := choices[0].order;
    FirstOrder(true, st, atts, choices);
    DeleteReaches(true, st, order);
    ReachIsFirst(true, st, order);
    forall i | 0 <= i < |order| {
      BlockedAtTurn(st, atts[0], choices[0], i);
    }
    assert forall id :: id in order <==> id in Elements(order);
  }

  /** Among snapshots that a later attachment removes, an earlier one unprotects none. */
  lemma ProtectedAfterDrop(st: State, first: Attachment, id: nat)
    requires ParentsOfSameSource(st.snaps) && id in st.snaps
    requires id !in RemovableSet(st, [first]) && !Newest(st.snaps, id) && !Locked(st.snaps[id], st.now)
    ensures var st' := Drop(st, RemovableSet(st, [first])); id in st'.snaps && (Protected(st', id) <==> Protected(st, id))
  {
    var st' := Drop(st, RemovableSet(st, [first]));
    forall c | c in st.snaps && st.snaps[c].parent == Some(id)
               && (Locked(st.snaps[c], st.now) || st.snaps[c].created >= st.snaps[id].created)
      ensures c in st'.snaps
    {
      assert Expired(st, [first], c) && st.snaps[c].created >= st.snaps[id].created ==> Expired(st, [first], id);
    }
  }

  lemma LaterProtected(st: State, first: Attachment, atts: seq<Attachment>)
    requires ParentsOfSameSource(st.snaps)
    ensures var st' := Drop(st, RemovableSet(st, [first]));
            forall id :: id in RemovableSet(st', atts) ==> (Protected(st', id) <==> Protected(st, id))
  {
    var st' := Drop(st, RemovableSet(st, [first]));
    forall id | id in RemovableSet(st', atts)
      ensures Protected(st', id) <==> Protected(st, id)
    {
      NewestAfterDrop(st, [first], id);
      ProtectedAfterDrop(st, first, id);
    }
  }

  lemma FirstDropped(st: State, atts: seq<Attachment>, choices: seq<Choice>)
    requires atts != [] && PassFits(true, st, atts, choices) && Settled(st, [atts[0]])
    requires DeleteInOrder(true, st, choices[0].order).completed
    ensures DeleteInOrder(true, st, choices[0].order).st == Drop(st, RemovableSet(st, [atts[0]]))
  {
    FirstOrder(true, st, atts, choices);
    DeleteReaches(true, st, choices[0].order);
    assert choices[0].order[..|choices[0].order|] == choices[0].order;
  }

  /** With foreign keys enforced, a pass completes if no snapshot it is meant to remove is
      protected, and, unless an increment has the creation time of its parent, only then. */
  lemma {:induction false} PassCompletesWhen(fk: bool, st: State, atts: seq<Attachment>, choices: seq<Choice>)
    requires PassFits(fk, st, atts, choices) && Settled(st, atts) && ParentsOfSameSource(st.snaps)
    ensures !fk || (forall id :: id in RemovableSet(st, atts) ==> !Protected(st, id)) ==> Pass(fk, st, choices).completed
    ensures NoTwins(st) && Pass(fk, st, choices).completed ==>
              !fk || forall id :: id in RemovableSet(st, atts) ==> !Protected(st, id)
    decreases |atts|
  {
    if !fk {
      UnforcedCompletes(st, choices);
    } else if atts == [] {
      assert RemovableSet(st, atts) == {};
    } else {
      var gone := RemovableSet(st, [atts[0]]);
      assert [atts[0]] + atts[1..] == atts;
      SettledSplit(st, atts[0], atts[1..]);
      FirstGoesWhen(st, atts, choices);
      RemovableAfterDrop(st, atts[0], atts[1..]);
      if DeleteInOrder(fk, st, choices[0].order).completed {
        FirstDropped(st, atts, choices);
        LaterProtected(st, atts[0], atts[1..]);
        PassCompletesWhen(fk, Drop(st, gone), atts[1..], choices[1..]);
      }
    }
  }

  /** An unlocked increment with the creation time of its parent, and a newer snapshot. */
  ghost predicate TwinState(st: State) {
    && st.snaps.Keys == {1, 2, 3} && st.restoreJobs == {}
    && (forall id :: id in st.snaps ==> st.snaps[id].source == 0 && st.snaps[id].lockedUntil == None)
    && st.snaps[2].parent == Some(1) && st.snaps[1].parent == None && st.snaps[3].parent == None
    && st.snaps[1].created == st.snaps[2].created < st.snaps[3].created <= st.now
  }

  lemma TwinsFit(st: State, order: seq<nat>) returns (att: Attachment)
    requires TwinState(st) && (order == [1, 2] || order == [2, 1])
    ensures att == Attachment(0, st.now - st.snaps[1].created - 1) && Fits(st, att, Choice(Some(3), order))
  {
    att := Attachment(0, st.now - st.snaps[1].created - 1);
    assert forall id :: id in order <==> id == 1 || id == 2;
  }

  lemma ParentFirst(st: State)
    requires TwinState(st)
    ensures !DeleteInOrder(true, st, [1, 2]).completed
  {
    var order := [1, 2];
    assert order[..0] == [] && 2 in st.snaps;
    assert StillBlocked(true, st, order, 0);
    DeleteReaches(true, st, order);
    ReachIsFirst(true, st, order);
  }

  lemma ChildFirst(st: State)
    requires TwinState(st)
    ensures DeleteInOrder(true, st, [2, 1]).completed
  {
    var order := [2, 1];
    assert order[..1] == [2];
    assert !StillBlocked(true, st, order, 0) && !StillBlocked(true, st, order, 1);
    DeleteReaches(true, st, order);
    ReachIsFirst(true, st, order);
  }

  lemma OneAttachment(st: State, att: Attachment, c: Choice)
    requires Fits(st, att, c)
    ensures PassFits(true, st, [att], [c]) && Pass(true, st, [c]).completed == DeleteInOrder(true, st, c.order).completed
  {
    assert [att][1..] == [] && [c][1..] == [];
  }

  /** Then the row order that the database answers with decides whether the pass completes. */
  lemma TwinsDecide(st: State) returns (att: Attachment, stopped: Choice, completed: Choice)
    requires TwinState(st)
    ensures PassFits(true, st, [att], [stopped]) && PassFits(true, st, [att], [completed])
    ensures !Pass(true, st, [stopped]).completed && Pass(true, st, [completed]).completed
  {
    att := TwinsFit(st, [1, 2]);
    att := TwinsFit(st, [2, 1]);
    stopped, completed := Choice(Some(3), [1, 2]), Choice(Some(3), [2, 1]);
    ParentFirst(st);
    ChildFirst(st);
    OneAttachment(st, att, stopped);
    OneAttachment(st, att, completed);
  }

  /** Passes over the same attachments in any order all complete or are all stopped, and
      those that complete end in the same state. */
  lemma AttachmentOrderIrrelevant(fk: bool, st: State, a: seq<Attachment>, ca: seq<Choice>, b: seq<Attachment>, cb: seq<Choice>)
    requires PassFits(fk, st, a, ca) && PassFits(fk, st, b, cb) && Elements(a) == Elements(b) && Settled(st, a)
    requires fk ==> ParentsOfSameSource(st.snaps) && NoTwins(st)
    ensures Pass(fk, st, ca).completed <==> Pass(fk, st, cb).completed
    ensures Pass(fk, st, ca).completed ==> Prune(fk, st, ca) == Prune(fk, st, cb)
  {
    SameAttachments(st, a, b);
    if fk {
      PassCompletesWhen(fk, st, a, ca);
      PassCompletesWhen(fk, st, b, cb);
    } else {
      UnforcedCompletes(st, ca);
      UnforcedCompletes(st, cb);
    }
    if Pass(fk, st, ca).completed {
      CompletedPassesAgree(fk, st, a, ca, b, cb);
    }
  }

  /** b is the oldest protected snapshot that the m-th attachment is meant to remove, and no earlier attachment meets such a snapshot. */
  ghost predicate FirstProtected(st: State, atts: seq<Attachment>, m: nat, b: nat)
    requires m < |atts|
  {
    && b in RemovableSet(st, atts[..m + 1]) && Protected(st, b)
    && forall id :: id in RemovableSet(st, atts[..m + 1]) && Protected(st, id) ==>
         id !in RemovableSet(st, atts[..m]) && st.snaps[b].created <= st.snaps[id].created
  }

  ghost function OlderThan(snaps: Snapshots, ids: set<nat>, b: nat): set<nat>
    requires b in snaps
  {
    set id | id in ids && id in snaps && snaps[id].created < snaps[b].created
  }

  /** All that earlier attachments remove, and what the m-th removes before it meets b. */
  ghost function DeletedBefore(st: State, atts: seq<Attachment>, m: nat, b: nat): set<nat>
    requires m < |atts| && b in st.snaps
  {
    RemovableSet(st, atts[..m]) + OlderThan(st.snaps, RemovableSet(st, atts[..m + 1]), b)
  }

  /** Some attachment meets a protected snapshot first. */
  lemma {:induction false} FirstProtectedExists(st: State, atts: seq<Attachment>, id: nat) returns (m: nat, b: nat)
    requires id in RemovableSet(st, atts) && Protected(st, id)
    ensures m < |atts| && FirstProtected(st, atts, m, b)
    decreases |atts|
  {
    if atts == [] {
      assert false;
    } else {
      var front := atts[..|atts| - 1];
      if other :| other in RemovableSet(st, front) && Protected(st, other) {
        m, b := FirstProtectedExists(st, front, other);
        assert front[..m] == atts[..m] && front[..m + 1] == atts[..m + 1];
      } else {
        m := |atts| - 1;
        assert atts[..m + 1] == atts;
        var protected := set i | i in RemovableSet(st, atts) && Protected(st, i);
        assert id in protected;
        b := OldestExists(st.snaps, protected);
      }
    }
  }

  lemma ReachIs(fk: bool, st: State, order: seq<nat>, k: nat)
    requires k < |order| && StillBlocked(fk, st, order, k)
    requires forall i :: 0 <= i < k ==> !StillBlocked(fk, st, order, i)
    ensures Reach(fk, st, order) == k
  {
    ReachIsFirst(fk, st, order);
  }

  ghost predicate OldestFirst(snaps: Snapshots, order: seq<nat>) {
    && (forall i :: 0 <= i < |order| ==> order[i] in snaps)
    && (forall i, j :: 0 <= i < j < |order| ==> snaps[order[i]].created < snaps[order[j]].created)
  }

  lemma StopsAtIndex(st: State, att: Attachment, choice: Choice, k: nat)
    requires Fits(st, att, choice) && ParentsOfSameSource(st.snaps) && NoTwins(st)
    requires k < |choice.order| && Protected(st, choice.order[k])
    requires forall i :: 0 <= i < k ==> !Protected(st, choice.order[i])
    ensures DeleteInOrder(true, st, choice.order) == Outcome(Drop(st, Elements(choice.order[..k])), false)
  {
    forall i | 0 <= i < |choice.order| {
      BlockedAtTurn(st, att, choice, i);
    }
    ReachIs(true, st, choice.order, k);
    DeleteReaches(true, st, choice.order);
  }

  lemma OlderPart(snaps: Snapshots, order: seq<nat>, k: nat)
    requires OldestFirst(snaps, order) && k < |order|
    ensures Elements(order[..k]) == OlderThan(snaps, Elements(order), order[k])
  {
    forall id | id in order && snaps[id].created < snaps[order[k]].created
      ensures id in order[..k]
    {
      var i :| 0 <= i < |order| && order[i] == id;
      assert order[..k][i] == id;
    }
  }

  lemma FirstOldestFirst(st: State, att: Attachment, c: Choice)
    requires Fits(st, att, c) && DistinctTimes(st.snaps)
    ensures OldestFirst(st.snaps, c.order)
  {
    forall i, j | 0 <= i < j < |c.order|
      ensures st.snaps[c.order[i]].created < st.snaps[c.order[j]].created
    {
      assert c.order[i] in c.order && c.order[j] in c.order;
      assert Doomed(st, att, c.keep, c.order[i]) && Doomed(st, att, c.keep, c.order[j]);
    }
  }

  lemma ProtectedInFirst(st: State, atts: seq<Attachment>, b: nat)
    requires atts != [] && FirstProtected(st, atts, 0, b)
    ensures var first := RemovableSet(st, [atts[0]]);
            && b in first && Protected(st, b)
            && (forall id :: id in first && Protected(st, id) ==> st.snaps[b].created <= st.snaps[id].created)
            && DeletedBefore(st, atts, 0, b) == OlderThan(st.snaps, first, b)
  {
    assert atts[..1] == [atts[0]];
    assert RemovableSet(st, atts[..0]) == {};
  }

  lemma StopsAtOldest(st: State, att: Attachment, choice: Choice, b: nat)
    requires Fits(st, att, choice) && ParentsOfSameSource(st.snaps) && NoTwins(st) && OldestFirst(st.snaps, choice.order)
    requires b in choice.order && b in st.snaps && Protected(st, b)
    requires forall id :: id in choice.order && id in st.snaps && Protected(st, id) ==> st.snaps[b].created <= st.snaps[id].created
    ensures DeleteInOrder(true, st, choice.order) == Outcome(Drop(st, OlderThan(st.snaps, Elements(choice.order), b)), false)
  {
    var k :| 0 <= k < |choice.order| && choice.order[k] == b;
    assert forall i :: 0 <= i < k ==> choice.order[i] in choice.order;
    StopsAtIndex(st, att, choice, k);
    OlderPart(st.snaps, choice.order, k);
  }

  lemma StopsInFirst(st: State, atts: seq<Attachment>, choices: seq<Choice>, b: nat)
    requires atts != [] && PassFits(true, st, atts, choices)
    requires DistinctTimes(st.snaps) && ParentsOfSameSource(st.snaps)
    requires FirstProtected(st, atts, 0, b)
    ensures Pass(true, st, choices) == Outcome(Drop(st, DeletedBefore(st, atts, 0, b)), false)
  {
    DistinctIsSettled(st, [atts[0]]);
    FirstOrder(true, st, atts, choices);
    FirstOldestFirst(st, atts[0], choices[0]);
    ProtectedInFirst(st, atts, b);
    assert forall id :: id in choices[0].order <==> id in Elements(choices[0].order);
    StopsAtOldest(st, atts[0], choices[0], b);
  }

  lemma LaterTurns(st: State, atts: seq<Attachment>, m: nat)
    requires 0 < m <= |atts|
    ensures var gone := RemovableSet(st, [atts[0]]);
            && RemovableSet(st, atts[..m]) == gone + RemovableSet(Drop(st, gone), atts[1..][..m - 1])
            && gone !! RemovableSet(Drop(st, gone), atts[1..][..m - 1])
  {
    assert atts[..m] == [atts[0]] + atts[1..][..m - 1];
    RemovableAfterDrop(st, atts[0], atts[1..][..m - 1]);
  }

  /** The first attachment goes through when a later one is the first to be stopped. */
  lemma FirstGoesThrough(st: State, atts: seq<Attachment>, choices: seq<Choice>, m: nat, b: nat)
    requires PassFits(true, st, atts, choices) && DistinctTimes(st.snaps) && ParentsOfSameSource(st.snaps)
    requires 0 < m < |atts| && FirstProtected(st, atts, m, b)
    ensures DeleteInOrder(true, st, choices[0].order) == Outcome(Drop(st, RemovableSet(st, [atts[0]])), true)
  {
    DistinctIsSettled(st, [atts[0]]);
    LaterTurns(st, atts, m);
    LaterTurns(st, atts, m + 1);
    FirstGoesWhen(st, atts, choices);
    FirstDropped(st, atts, choices);
  }

  lemma SecondIsStopped(st: State, atts: seq<Attachment>, m: nat, b: nat)
    requires ParentsOfSameSource(st.snaps)
    requires 0 < m < |atts| && FirstProtected(st, atts, m, b)
    ensures var st' := Drop(st, RemovableSet(st, [atts[0]]));
            && FirstProtected(st', atts[1..], m - 1, b)
            && DeletedBefore(st, atts, m, b) == RemovableSet(st, [atts[0]]) + DeletedBefore(st', atts[1..], m - 1, b)
  {
    var gone := RemovableSet(st, [atts[0]]);
    LaterTurns(st, atts, m);
    LaterTurns(st, atts, m + 1);
    LaterProtected(st, atts[0], atts[1..][..m]);
    assert b !in gone;
  }

  /** Exactly where an aborted pass stops, from the state before it alone. */
  lemma {:induction false} PassStopsAt(st: State, atts: seq<Attachment>, choices: seq<Choice>, m: nat, b: nat)
    requires PassFits(true, st, atts, choices) && DistinctTimes(st.snaps) && ParentsOfSameSource(st.snaps)
    requires m < |atts| && FirstProtected(st, atts, m, b)
    ensures Pass(true, st, choices) == Outcome(Drop(st, DeletedBefore(st, atts, m, b)), false)
    decreases m
  {
    if m == 0 {
      StopsInFirst(st, atts, choices, b);
    } else {
      var gone := RemovableSet(st, [atts[0]]);
      FirstGoesThrough(st, atts, choices, m, b);
      SecondIsStopped(st, atts, m, b);
      PassStopsAt(Drop(st, gone), atts[1..], choices[1..], m - 1, b);
      DropUnion(st, gone, DeletedBefore(Drop(st, gone), atts[1..], m - 1, b));
    }
  }
}
