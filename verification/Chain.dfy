/** The backup chain view: _build_chain in app/api/chain.py. */
module Chain {
  import opened Basics
  import opened Sorting
  import Cas
  import Invariants
  import Records
  import Runs

  /** The columns of a snapshot that the view reads. */
  datatype ChainSnapshot = ChainSnapshot(id: nat, parent: Option<nat>, created: int, lockedUntil: Option<int>)

  datatype ChainNode = ChainNode(
    id: nat, parent: Option<nat>, created: int, isLocked: bool, children: seq<nat>, safeToDelete: bool, depth: nat)

  // ----- the parent relation -----

  /** Zero, like a missing value, counts as no parent. */
  function ParentId(s: ChainSnapshot): nat {
    if s.parent.Some? then s.parent.value else 0
  }

  function Ids(snaps: seq<ChainSnapshot>): set<nat> {
    set s | s in snaps :: s.id
  }

  ghost predicate UniqueIds(snaps: seq<ChainSnapshot>)
    decreases |snaps|
  {
    snaps == [] || (snaps[|snaps| - 1].id !in Ids(snaps[..|snaps| - 1]) && UniqueIds(snaps[..|snaps| - 1]))
  }

  /** The listed snapshots whose parent is this one, in list order. */
  function ChildList(snaps: seq<ChainSnapshot>, id: nat): seq<nat>
    decreases |snaps|
  {
    if snaps == [] then [] else
      var last := snaps[|snaps| - 1];
      ChildList(snaps[..|snaps| - 1], id) + if ParentId(last) != 0 && ParentId(last) == id then [last.id] else []
  }

  function ChildSet(snaps: seq<ChainSnapshot>, id: nat): set<nat> {
    set s | s in snaps && ParentId(s) != 0 && ParentId(s) == id :: s.id
  }

  predicate Distinct(ids: seq<nat>) {
    ids == [] || (ids[0] !in Elements(ids[1..]) && Distinct(ids[1..]))
  }

  /** Following parents from `id` reaches a parentless listed snapshot in exactly d steps. */
  ghost predicate HasDepth(snaps: seq<ChainSnapshot>, id: nat, d: nat)
    decreases d
  {
    exists s :: s in snaps && s.id == id &&
      if d == 0 then ParentId(s) == 0 else ParentId(s) != 0 && HasDepth(snaps, ParentId(s), d - 1)
  }

  ghost predicate DepthIs(snaps: seq<ChainSnapshot>, id: nat, depth: nat) {
    && (forall d :: HasDepth(snaps, id, d) ==> depth == d)
    && ((forall d :: !HasDepth(snaps, id, d)) ==> depth == 0)
  }

  lemma {:induction false} SameId(snaps: seq<ChainSnapshot>, s: ChainSnapshot, t: ChainSnapshot)
    requires UniqueIds(snaps) && s in snaps && t in snaps && s.id == t.id
    ensures s == t
    decreases |snaps|
  {
    var front, last := snaps[..|snaps| - 1], snaps[|snaps| - 1];
    assert s in front || s == last;
    assert t in front || t == last;
    if s !in front || t !in front {
    } else {
      SameId(front, s, t);
    }
  }

  lemma {:induction false} DepthUnique(snaps: seq<ChainSnapshot>, id: nat, d: nat, e: nat)
    requires UniqueIds(snaps) && HasDepth(snaps, id, d) && HasDepth(snaps, id, e)
    ensures d == e
    decreases d
  {
    var s :| s in snaps && s.id == id &&
      if d == 0 then ParentId(s) == 0 else ParentId(s) != 0 && HasDepth(snaps, ParentId(s), d - 1);
    var t :| t in snaps && t.id == id &&
      if e == 0 then ParentId(t) == 0 else ParentId(t) != 0 && HasDepth(snaps, ParentId(t), e - 1);
    SameId(snaps, s, t);
    if d == 0 {
    } else {
      DepthUnique(snaps, ParentId(s), d - 1, e - 1);
    }
  }

  lemma HeadAndRest(ids: seq<nat>)
    requires ids != []
    ensures Elements(ids) == {ids[0]} + Elements(ids[1..])
  {
    assert ids == [ids[0]] + ids[1..];
    ElementsAppend([ids[0]], ids[1..]);
    assert Elements([ids[0]]) == {ids[0]};
  }

  lemma {:induction false} DistinctAppend(a: seq<nat>, b: seq<nat>)
    requires Distinct(a) && Distinct(b) && Elements(a) !! Elements(b)
    ensures Distinct(a + b)
  {
    if a == [] {
      assert a + b == b;
    } else {
      assert (a + b)[1..] == a[1..] + b;
      assert Elements(a) == {a[0]} + Elements(a[1..]) by { HeadAndRest(a); }
      ElementsAppend(a[1..], b);
      DistinctAppend(a[1..], b);
    }
  }

  lemma {:induction false} ChildListIs(snaps: seq<ChainSnapshot>, id: nat)
    requires UniqueIds(snaps)
    ensures Elements(ChildList(snaps, id)) == ChildSet(snaps, id) && Distinct(ChildList(snaps, id))
    decreases |snaps|
  {
    if snaps == [] {
    } else {
      var front, last := snaps[..|snaps| - 1], snaps[|snaps| - 1];
      ChildListIs(front, id);
      assert forall s :: s in snaps <==> s in front || s == last;
      if ParentId(last) != 0 && ParentId(last) == id {
        ElementsAppend(ChildList(front, id), [last.id]);
        assert Elements([last.id]) == {last.id};
        assert last.id !in ChildSet(front, id);
        DistinctAppend(ChildList(front, id), [last.id]);
      } else {
        assert ChildList(snaps, id) == ChildList(front, id);
      }
    }
  }

  /** A snapshot is in exactly one child list if its parent is listed, and in none otherwise. */
  lemma OneChildList(snaps: seq<ChainSnapshot>, s: ChainSnapshot, id: nat)
    requires UniqueIds(snaps) && s in snaps
    ensures s.id in ChildList(snaps, id) <==> ParentId(s) != 0 && ParentId(s) == id
    ensures (exists p :: p in Ids(snaps) && s.id in ChildList(snaps, p)) <==> ParentId(s) != 0 && ParentId(s) in Ids(snaps)
  {
    forall p
      ensures s.id in ChildList(snaps, p) <==> ParentId(s) != 0 && ParentId(s) == p
    {
      ChildListIs(snaps, p);
      assert s.id in ChildList(snaps, p) <==> s.id in Elements(ChildList(snaps, p));
      if s.id in ChildSet(snaps, p) {
        var t :| t in snaps && ParentId(t) != 0 && ParentId(t) == p && t.id == s.id;
        SameId(snaps, s, t);
      }
    }
  }

  // ----- breadth-first depths -----

  ghost predicate ChildMap(snaps: seq<ChainSnapshot>, children: map<nat, seq<nat>>) {
    children.Keys == Ids(snaps) && forall id :: id in children ==> children[id] == ChildList(snaps, id)
  }

  lemma OneMoreChild(snaps: seq<ChainSnapshot>, i: nat)
    requires i < |snaps|
    ensures forall id ::
              ChildList(snaps[..i + 1], id) == ChildList(snaps[..i], id)
              + if ParentId(snaps[i]) != 0 && ParentId(snaps[i]) == id then [snaps[i].id] else []
  {
    assert snaps[..i + 1][..i] == snaps[..i];
  }

  method BuildChildren(snaps: seq<ChainSnapshot>) returns (children: map<nat, seq<nat>>)
    requires UniqueIds(snaps)
    ensures ChildMap(snaps, children)
  {
    children := map id | id in Ids(snaps) :: [];
    for i := 0 to |snaps|
      invariant children.Keys == Ids(snaps)
      invariant forall id :: id in children ==> children[id] == ChildList(snaps[..i], id)
    {
      var snap := snaps[i];
      OneMoreChild(snaps, i);
      if ParentId(snap) != 0 && ParentId(snap) in children {
        children := children[ParentId(snap) := children[ParentId(snap)] + [snap.id]];
      }
    }
    assert snaps[..|snaps|] == snaps;
  }

  /** The snapshots without a parent and those whose parent is in `done`. */
  ghost function Opened(snaps: seq<ChainSnapshot>, done: set<nat>): set<nat> {
    set s | s in snaps && (ParentId(s) == 0 || ParentId(s) in done) :: s.id
  }

  function QueuedIds(queue: seq<(nat, nat)>): (ids: seq<nat>)
    ensures |ids| == |queue| && forall k :: 0 <= k < |queue| ==> ids[k] == queue[k].0
  {
    seq(|queue|, k requires 0 <= k < |queue| => queue[k].0)
  }

  ghost predicate RightDepths(snaps: seq<ChainSnapshot>, depths: map<nat, nat>, queue: seq<(nat, nat)>) {
    && (forall id :: id in depths ==> HasDepth(snaps, id, depths[id]))
    && (forall k :: 0 <= k < |queue| ==> HasDepth(snaps, queue[k].0, queue[k].1))
  }

  /** What holds between two turns of the queue loop: nothing is queued twice or
      again, and exactly the roots and the children of finished nodes were queued. */
  ghost predicate Progress(snaps: seq<ChainSnapshot>, done: set<nat>, queued: seq<nat>) {
    && done <= Ids(snaps)
    && Distinct(queued) && Elements(queued) !! done
    && done + Elements(queued) == Opened(snaps, done)
  }

  lemma OpenedMore(snaps: seq<ChainSnapshot>, done: set<nat>, id: nat)
    requires UniqueIds(snaps) && id !in done
    ensures Opened(snaps, done) <= Ids(snaps)
    ensures ChildSet(snaps, id) !! Opened(snaps, done)
    ensures Opened(snaps, done + {id}) == Opened(snaps, done) + ChildSet(snaps, id)
  {
    forall c | c in ChildSet(snaps, id) && c in Opened(snaps, done)
      ensures false
    {
      var s :| s in snaps && ParentId(s) != 0 && ParentId(s) == id && s.id == c;
      var t :| t in snaps && (ParentId(t) == 0 || ParentId(t) in done) && t.id == c;
      SameId(snaps, s, t);
    }
    forall s | s in snaps && (ParentId(s) == 0 || ParentId(s) in done + {id})
      ensures s.id in Opened(snaps, done) + ChildSet(snaps, id)
    {
      if ParentId(s) == 0 || ParentId(s) in done {
        assert s.id in Opened(snaps, done);
      } else {
        assert s.id in ChildSet(snaps, id);
      }
    }
  }

  /** Finishing the head and queueing its children keeps this: no child was queued
      before, because its only parent was not finished. */
  lemma Turn(snaps: seq<ChainSnapshot>, done: set<nat>, queued: seq<nat>)
    requires UniqueIds(snaps) && queued != [] && Progress(snaps, done, queued)
    ensures Progress(snaps, done + {queued[0]}, queued[1..] + ChildList(snaps, queued[0]))
  {
    var id, rest := queued[0], queued[1..];
    ChildListIs(snaps, id);
    HeadAndRest(queued);
    assert id in Opened(snaps, done);
    OpenedMore(snaps, done, id);
    ElementsAppend(rest, ChildList(snaps, id));
    DistinctAppend(rest, ChildList(snaps, id));
  }

  function Tagged(ids: seq<nat>, d: nat): (pairs: seq<(nat, nat)>)
    ensures |pairs| == |ids| && forall k :: 0 <= k < |ids| ==> pairs[k] == (ids[k], d)
  {
    seq(|ids|, k requires 0 <= k < |ids| => (ids[k], d))
  }

  lemma TurnDepths(snaps: seq<ChainSnapshot>, depths: map<nat, nat>, queue: seq<(nat, nat)>)
    requires UniqueIds(snaps) && queue != [] && RightDepths(snaps, depths, queue)
    ensures var (id, d) := queue[0];
            RightDepths(snaps, depths[id := d], queue[1..] + Tagged(ChildList(snaps, id), d + 1))
  {
    var (id, d) := queue[0];
    var added := Tagged(ChildList(snaps, id), d + 1);
    ChildListIs(snaps, id);
    forall k | 0 <= k < |added|
      ensures HasDepth(snaps, added[k].0, added[k].1)
    {
      assert added[k].0 in Elements(ChildList(snaps, id));
      var s :| s in snaps && ParentId(s) != 0 && ParentId(s) == id && s.id == added[k].0;
    }
  }

  /** When the queue is empty, everything with a depth is finished. */
  lemma {:induction false} AllFinished(snaps: seq<ChainSnapshot>, done: set<nat>, id: nat, d: nat)
    requires Progress(snaps, done, []) && HasDepth(snaps, id, d)
    ensures id in done
    decreases d
  {
    var s :| s in snaps && s.id == id &&
      if d == 0 then ParentId(s) == 0 else ParentId(s) != 0 && HasDepth(snaps, ParentId(s), d - 1);
    if d == 0 {
    } else {
      AllFinished(snaps, done, ParentId(s), d - 1);
    }
    assert s.id in Opened(snaps, done);
  }

  function RootIds(snaps: seq<ChainSnapshot>): seq<nat>
    decreases |snaps|
  {
    if snaps == [] then [] else
      var last := snaps[|snaps| - 1];
      RootIds(snaps[..|snaps| - 1]) + if ParentId(last) == 0 then [last.id] else []
  }

  lemma {:induction false} RootIdsAre(snaps: seq<ChainSnapshot>)
    requires UniqueIds(snaps)
    ensures Elements(RootIds(snaps)) == Opened(snaps, {}) && Distinct(RootIds(snaps))
    decreases |snaps|
  {
    if snaps == [] {
    } else {
      var front, last := snaps[..|snaps| - 1], snaps[|snaps| - 1];
      RootIdsAre(front);
      assert forall s :: s in snaps <==> s in front || s == last;
      if ParentId(last) == 0 {
        ElementsAppend(RootIds(front), [last.id]);
        assert Elements([last.id]) == {last.id};
        assert last.id !in Opened(front, {});
        DistinctAppend(RootIds(front), [last.id]);
      } else {
        assert RootIds(snaps) == RootIds(front);
      }
    }
  }

  ghost predicate Walking(snaps: seq<ChainSnapshot>, depths: map<nat, nat>, queue: seq<(nat, nat)>) {
    Progress(snaps, depths.Keys, QueuedIds(queue)) && RightDepths(snaps, depths, queue)
  }

  lemma RootsStart(snaps: seq<ChainSnapshot>)
    requires UniqueIds(snaps)
    ensures Walking(snaps, map[], Tagged(RootIds(snaps), 0))
  {
    RootIdsAre(snaps);
    var queue := Tagged(RootIds(snaps), 0);
    assert QueuedIds(queue) == RootIds(snaps);
    forall k | 0 <= k < |queue|
      ensures HasDepth(snaps, queue[k].0, queue[k].1)
    {
      assert queue[k].0 in Elements(RootIds(snaps));
      var s :| s in snaps && (ParentId(s) == 0 || ParentId(s) in {}) && s.id == queue[k].0;
    }
  }

  lemma QueueShift(queue: seq<(nat, nat)>, ids: seq<nat>, d: nat)
    requires queue != []
    ensures QueuedIds(queue[1..] + Tagged(ids, d)) == QueuedIds(queue)[1..] + ids
  {
  }

  lemma HeadListed(snaps: seq<ChainSnapshot>, done: set<nat>, queued: seq<nat>)
    requires queued != [] && Progress(snaps, done, queued)
    ensures queued[0] in Ids(snaps) - done
  {
    HeadAndRest(queued);
    assert queued[0] in Opened(snaps, done);
  }

  lemma WalkOn(snaps: seq<ChainSnapshot>, depths: map<nat, nat>, queue: seq<(nat, nat)>, id: nat, d: nat)
    requires UniqueIds(snaps) && queue != [] && Walking(snaps, depths, queue) && queue[0] == (id, d)
    ensures id in Ids(snaps) - depths.Keys
    ensures Walking(snaps, depths[id := d], queue[1..] + Tagged(ChildList(snaps, id), d + 1))
  {
    var ids := QueuedIds(queue);
    assert ids[0] == id;
    HeadListed(snaps, depths.Keys, ids);
    Turn(snaps, depths.Keys, ids);
    TurnDepths(snaps, depths, queue);
    QueueShift(queue, ChildList(snaps, id), d + 1);
    assert depths[id := d].Keys == depths.Keys + {id};
  }

  /** Everything ever queued is what was taken out, each once, and what still waits. */
  ghost predicate Logged(queued: seq<nat>, taken: seq<nat>, queue: seq<(nat, nat)>, done: set<nat>) {
    queued == taken + QueuedIds(queue) && Distinct(taken) && Elements(taken) == done
  }

  lemma LogTurn(queued: seq<nat>, taken: seq<nat>, queue: seq<(nat, nat)>, done: set<nat>, added: seq<nat>, d: nat)
    requires queue != [] && Logged(queued, taken, queue, done) && queue[0].0 !in done
    ensures Logged(queued + added, taken + [queue[0].0], queue[1..] + Tagged(added, d), done + {queue[0].0})
  {
    var ids := QueuedIds(queue);
    QueueShift(queue, added, d);
    assert ids == [ids[0]] + ids[1..] && ids[0] == queue[0].0;
    assert Elements([ids[0]]) == {ids[0]};
    DistinctAppend(taken, [ids[0]]);
    ElementsAppend(taken, [ids[0]]);
  }

  ghost predicate WalkState(snaps: seq<ChainSnapshot>, depths: map<nat, nat>, queue: seq<(nat, nat)>, queued: seq<nat>, taken: seq<nat>) {
    Walking(snaps, depths, queue) && Logged(queued, taken, queue, depths.Keys)
  }

  lemma WalkTurn(snaps: seq<ChainSnapshot>, depths: map<nat, nat>, queue: seq<(nat, nat)>, queued: seq<nat>, taken: seq<nat>,
                 id: nat, d: nat, added: seq<nat>)
    requires UniqueIds(snaps) && queue != [] && queue[0] == (id, d) && added == ChildList(snaps, id)
    requires WalkState(snaps, depths, queue, queued, taken)
    ensures id in Ids(snaps) - depths.Keys
    ensures WalkState(snaps, depths[id := d], queue[1..] + Tagged(added, d + 1), queued + added, taken + [id])
  {
    WalkOn(snaps, depths, queue, id, d);
    LogTurn(queued, taken, queue, depths.Keys, added, d + 1);
    assert depths[id := d].Keys == depths.Keys + {id};
  }

  /** The queue loop. It ends for every parent relation, also with cycles and missing parents;
      `queued` lists everything that was ever put into the queue. */
  method WalkQueue(snaps: seq<ChainSnapshot>, children: map<nat, seq<nat>>) returns (depths: map<nat, nat>, ghost queued: seq<nat>)
    requires UniqueIds(snaps) && ChildMap(snaps, children)
    ensures Distinct(queued) && Elements(queued) == depths.Keys
    ensures Progress(snaps, depths.Keys, []) && RightDepths(snaps, depths, [])
  {
    depths := map[];
    var queue := Tagged(RootIds(snaps), 0);
    RootsStart(snaps);
    queued := RootIds(snaps);
    ghost var taken: seq<nat> := [];
    assert Logged(queued, taken, queue, {}) by { assert QueuedIds(queue) == queued; }
    while queue != []
      invariant WalkState(snaps, depths, queue, queued, taken)
      decreases Ids(snaps) - depths.Keys
    {
      var (id, d) := queue[0];
      ghost var added := ChildList(snaps, id);
      WalkTurn(snaps, depths, queue, queued, taken, id, d, added);
      assert children[id] == added;
      queued, taken := queued + added, taken + [id];
      depths := depths[id := d];
      queue := queue[1..] + Tagged(children[id], d + 1);
    }
    assert QueuedIds(queue) == [] && queued == taken;
  }

  lemma FinishedDepths(snaps: seq<ChainSnapshot>, reached: map<nat, nat>, id: nat)
    requires UniqueIds(snaps) && Progress(snaps, reached.Keys, []) && RightDepths(snaps, reached, [])
    ensures DepthIs(snaps, id, if id in reached then reached[id] else 0)
  {
    forall d | HasDepth(snaps, id, d)
      ensures id in reached && reached[id] == d
    {
      AllFinished(snaps, reached.Keys, id, d);
      DepthUnique(snaps, id, d, reached[id]);
    }
  }

  method FillMissing(snaps: seq<ChainSnapshot>, reached: map<nat, nat>) returns (depths: map<nat, nat>)
    requires reached.Keys <= Ids(snaps)
    ensures depths.Keys == Ids(snaps)
    ensures forall id :: id in depths ==> depths[id] == if id in reached then reached[id] else 0
  {
    depths := reached;
    for i := 0 to |snaps|
      invariant depths.Keys == reached.Keys + Ids(snaps[..i])
      invariant forall id :: id in depths ==> depths[id] == if id in reached then reached[id] else 0
    {
      assert snaps[..i + 1] == snaps[..i] + [snaps[i]];
      if snaps[i].id !in depths {
        depths := depths[snaps[i].id := 0];
      }
    }
    assert snaps[..|snaps|] == snaps;
  }

  method ComputeDepths(snaps: seq<ChainSnapshot>, children: map<nat, seq<nat>>) returns (depths: map<nat, nat>)
    requires UniqueIds(snaps) && ChildMap(snaps, children)
    ensures depths.Keys == Ids(snaps)
    ensures forall id :: id in depths ==> DepthIs(snaps, id, depths[id])
  {
    var reached, _ := WalkQueue(snaps, children);
    depths := FillMissing(snaps, reached);
    forall id | id in depths {
      FinishedDepths(snaps, reached, id);
    }
  }

  predicate IsLocked(s: ChainSnapshot, now: int) {
    s.lockedUntil.Some? && s.lockedUntil.value > now
  }

  function ByCreated(): (ChainSnapshot, ChainSnapshot) -> bool {
    (s: ChainSnapshot, t: ChainSnapshot) => s.created <= t.created
  }

  function ById(): (nat, nat) -> bool {
    (i: nat, j: nat) => i <= j
  }

  /** The annotation the view promises for one snapshot. */
  ghost predicate Annotates(snaps: seq<ChainSnapshot>, now: int, s: ChainSnapshot, n: ChainNode) {
    && n.id == s.id && n.parent == s.parent && n.created == s.created && n.isLocked == (s.lockedUntil.Some? && now < s.lockedUntil.value)
    && (forall i, j :: 0 <= i < j < |n.children| ==> n.children[i] <= n.children[j]) && multiset(n.children) == multiset(ChildList(snaps, s.id))
    && (n.safeToDelete <==> !n.isLocked && forall c :: c in snaps && ParentId(c) != 0 ==> ParentId(c) != s.id)
    && DepthIs(snaps, s.id, n.depth)
  }

  lemma NoChildren(snaps: seq<ChainSnapshot>, id: nat)
    requires UniqueIds(snaps)
    ensures |ChildList(snaps, id)| == 0 <==> forall c :: c in snaps && ParentId(c) != 0 ==> ParentId(c) != id
  {
    ChildListIs(snaps, id);
    NoElements(ChildList(snaps, id));
    forall c | c in snaps && ParentId(c) != 0 && ParentId(c) == id
      ensures ChildSet(snaps, id) != {}
    {
      assert c.id in ChildSet(snaps, id);
    }
    if ChildSet(snaps, id) != {} {
      var x :| x in ChildSet(snaps, id);
    }
  }

  method Annotate(snaps: seq<ChainSnapshot>, now: int, s: ChainSnapshot, children: map<nat, seq<nat>>, depths: map<nat, nat>)
    returns (n: ChainNode)
    requires UniqueIds(snaps) && ChildMap(snaps, children) && s in snaps
    requires depths.Keys == Ids(snaps) && forall id :: id in depths ==> DepthIs(snaps, id, depths[id])
    ensures Annotates(snaps, now, s, n)
  {
    assert s.id in Ids(snaps);
    NoChildren(snaps, s.id);
    SortedIsSorted(ById(), children[s.id]);
    var safe := !IsLocked(s, now) && |children[s.id]| == 0;
    n := ChainNode(s.id, s.parent, s.created, IsLocked(s, now), Sorted(ById(), children[s.id]), safe, depths[s.id]);
  }

  ghost predicate AllAnnotated(snaps: seq<ChainSnapshot>, now: int, ordered: seq<ChainSnapshot>, nodes: seq<ChainNode>) {
    |nodes| <= |ordered| && forall i :: 0 <= i < |nodes| ==> Annotates(snaps, now, ordered[i], nodes[i])
  }

  lemma OneMoreNode(snaps: seq<ChainSnapshot>, now: int, ordered: seq<ChainSnapshot>, nodes: seq<ChainNode>, node: ChainNode)
    requires AllAnnotated(snaps, now, ordered, nodes) && |nodes| < |ordered|
    requires Annotates(snaps, now, ordered[|nodes|], node)
    ensures AllAnnotated(snaps, now, ordered, nodes + [node])
  {
    var more := nodes + [node];
    forall i | 0 <= i < |more|
      ensures Annotates(snaps, now, ordered[i], more[i])
    {
      assert more[i] == if i < |nodes| then nodes[i] else node;
    }
  }

  method AnnotateAll(snaps: seq<ChainSnapshot>, now: int, ordered: seq<ChainSnapshot>,
                     children: map<nat, seq<nat>>, depths: map<nat, nat>)
    returns (nodes: seq<ChainNode>)
    requires UniqueIds(snaps) && ChildMap(snaps, children) && ordered == Sorted(ByCreated(), snaps)
    requires depths.Keys == Ids(snaps) && forall id :: id in depths ==> DepthIs(snaps, id, depths[id])
    ensures |nodes| == |ordered| && AllAnnotated(snaps, now, ordered, nodes)
  {
    nodes := [];
    for i := 0 to |ordered|
      invariant |nodes| == i && AllAnnotated(snaps, now, ordered, nodes)
    {
      SortedMember(ByCreated(), snaps, i);
      var node := Annotate(snaps, now, ordered[i], children, depths);
      OneMoreNode(snaps, now, ordered, nodes, node);
      nodes := nodes + [node];
    }
  }

  /** One node per snapshot, oldest first. */
  method BuildChain(snaps: seq<ChainSnapshot>, now: int) returns (nodes: seq<ChainNode>)
    requires UniqueIds(snaps)
    ensures |nodes| == |Sorted(ByCreated(), snaps)|
    ensures forall i :: 0 <= i < |nodes| ==> Annotates(snaps, now, Sorted(ByCreated(), snaps)[i], nodes[i])
    ensures multiset(Sorted(ByCreated(), snaps)) == multiset(snaps)
    ensures forall i, j :: 0 <= i < j < |nodes| ==> nodes[i].created <= nodes[j].created
  {
    SortedIsSorted(ByCreated(), snaps);
    var children := BuildChildren(snaps);
    var depths := ComputeDepths(snaps, children);
    nodes := AnnotateAll(snaps, now, Sorted(ByCreated(), snaps), children, depths);
  }

  // ----- what the flag means for the run -----

  /** The view of one source lists exactly its snapshots. */
  ghost predicate Lists(snaps: Records.Snapshots, source: nat, list: seq<ChainSnapshot>) {
    && UniqueIds(list)
    && (forall c :: c in list ==>
          && c.id in snaps && snaps[c.id].source == source
          && c.parent == snaps[c.id].parent && c.lockedUntil == snaps[c.id].lockedUntil)
    && (forall id :: id in snaps && snaps[id].source == source ==> exists c :: c in list && c.id == id)
  }

  /** The per-source flag is right about the whole database: it marks exactly the
      snapshots whose deletion leaves no living increment without its parent. */
  lemma FlagIsSafe(st: Records.State, source: nat, list: seq<ChainSnapshot>, s: ChainSnapshot, n: ChainNode)
    requires Lists(st.snaps, source, list) && s in list && s.id != 0
    requires Records.ParentsOfSameSource(st.snaps)
    requires Annotates(list, st.now, s, n)
    ensures n.safeToDelete <==> Runs.SafeToDelete(st, s.id)
  {
    if Records.HasChild(st.snaps, s.id) {
      var id :| id in st.snaps && st.snaps[id].parent == Some(s.id);
      var c :| c in list && c.id == id;
      assert ParentId(c) == s.id;
    }
    if c :| c in list && ParentId(c) != 0 && ParentId(c) == s.id {
      assert st.snaps[c.id].parent == Some(s.id);
    }
  }

  /** In every reachable state the chain view's flag is exactly the safe deletion of a careful run. */
  lemma FlagIsSafeInRuns(env: Cas.Env, fk: bool, now: int, steps: seq<Runs.Step>,
                         source: nat, list: seq<ChainSnapshot>, s: ChainSnapshot, n: ChainNode)
    requires Invariants.Assumptions(env) && Runs.ValidRun(env, fk, Runs.Start(now), steps)
    requires var st := Runs.Final(env, fk, Runs.Start(now), steps).st;
             Lists(st.snaps, source, list) && s in list && Annotates(list, st.now, s, n)
    ensures n.safeToDelete <==> Runs.SafeToDelete(Runs.Final(env, fk, Runs.Start(now), steps).st, s.id)
  {
    Runs.RunSound(env, fk, now, steps);
    FlagIsSafe(Runs.Final(env, fk, Runs.Start(now), steps).st, source, list, s, n);
  }
}
