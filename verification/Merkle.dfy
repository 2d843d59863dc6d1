/** Merkle trees over chunk digests: app/core/merkle.py. */
module Merkle {
  import opened Basics
  import opened Hashing

  datatype MerkleNode = Leaf(hash: Digest) | Inner(hash: Digest, left: MerkleNode, right: MerkleNode)

  type Tree = Option<MerkleNode>

  // ----- construction, layer by layer -----

  function Parent(H: Hasher, left: MerkleNode, right: MerkleNode): MerkleNode {
    Inner(H.node(left.hash, right.hash), left, right)
  }

  function Partner(i: nat, n: nat): nat {
    if 2 * i + 1 < n then 2 * i + 1 else 2 * i
  }

  /** The layer above: neighbours are combined, and the last element of an odd
      layer is combined with itself. */
  function Above(H: Hasher, layer: seq<MerkleNode>): (next: seq<MerkleNode>)
    ensures |next| == (|layer| + 1) / 2
    ensures forall i :: 0 <= i < |next| ==> next[i] == Parent(H, layer[2 * i], layer[Partner(i, |layer|)])
  {
    seq((|layer| + 1) / 2, i requires 0 <= i < (|layer| + 1) / 2 => Parent(H, layer[2 * i], layer[Partner(i, |layer|)]))
  }

  function Raise(H: Hasher, layer: seq<MerkleNode>): MerkleNode
    requires layer != []
    decreases |layer|
  {
    if |layer| == 1 then layer[0] else Raise(H, Above(H, layer))
  }

  function LeafLayer(hashes: seq<Digest>): (layer: seq<MerkleNode>)
    ensures |layer| == |hashes|
  {
    Map(h => Leaf(h), hashes)
  }

  function Build(H: Hasher, hashes: seq<Digest>): Tree {
    if hashes == [] then None
    else Some(Raise(H, LeafLayer(hashes)))
  }

  function RootHash(H: Hasher, tree: Tree): Digest {
    match tree
    case None => H.empty
    case Some(root) => root.hash
  }

  function Root(H: Hasher, hashes: seq<Digest>): Digest {
    RootHash(H, Build(H, hashes))
  }

  method NextLayer(H: Hasher, layer: seq<MerkleNode>) returns (nextLayer: seq<MerkleNode>)
    requires layer != []
    ensures nextLayer == Above(H, layer)
  {
    var nodes := layer;
    nextLayer := [];
    if |nodes| % 2 == 1 {
      nodes := nodes + [nodes[|nodes| - 1]];
    }
    var i := 0;
    while i < |nodes|
      invariant 0 <= i <= |nodes| && i == 2 * |nextLayer|
      invariant forall k :: 0 <= k < |nextLayer| ==> nextLayer[k] == Parent(H, nodes[2 * k], nodes[2 * k + 1])
    {
      nextLayer := nextLayer + [Parent(H, nodes[i], nodes[i + 1])];
      i := i + 2;
    }
  }

  method BuildTree(H: Hasher, hashes: seq<Digest>) returns (tree: Tree)
    ensures tree == Build(H, hashes)
  {
    if hashes == [] {
      return None;
    }
    var nodes := LeafLayer(hashes);
    while |nodes| > 1
      invariant nodes != []
      invariant Raise(H, nodes) == Raise(H, LeafLayer(hashes))
      decreases |nodes|
    {
      nodes := NextLayer(H, nodes);
    }
    tree := Some(nodes[0]);
  }

  method Verify(H: Hasher, hashes: seq<Digest>, expectedRoot: Digest) returns (ok: bool)
    ensures ok <==> Root(H, hashes) == expectedRoot
  {
    var tree := BuildTree(H, hashes);
    ok := RootHash(H, tree) == expectedRoot;
  }

  // ----- the shape of a built tree -----

  /** The digests at the leaves, left to right. */
  function Leaves(n: MerkleNode): (s: seq<Digest>)
    ensures s != []
  {
    match n
    case Leaf(h) => [h]
    case Inner(_, l, r) => Leaves(l) + Leaves(r)
  }

  ghost predicate Hashed(H: Hasher, n: MerkleNode) {
    match n
    case Leaf(_) => true
    case Inner(h, l, r) => h == H.node(l.hash, r.hash) && Hashed(H, l) && Hashed(H, r)
  }

  ghost predicate Perfect(n: MerkleNode, height: nat) {
    match n
    case Leaf(_) => height == 0
    case Inner(_, l, r) => height > 0 && Perfect(l, height - 1) && Perfect(r, height - 1)
  }

  function Pow2(k: nat): nat {
    if k == 0 then 1 else 2 * Pow2(k - 1)
  }

  /** The number of combining rounds for a layer of n nodes. */
  function Rounds(n: nat): nat {
    if n <= 1 then 0 else 1 + Rounds((n + 1) / 2)
  }

  function Blocks(hashes: seq<Digest>): (blocks: seq<seq<Digest>>)
    ensures |blocks| == |hashes|
  {
    Map(h => [h], hashes)
  }

  function LeafLists(layer: seq<MerkleNode>): (blocks: seq<seq<Digest>>)
    ensures |blocks| == |layer|
    ensures forall i :: 0 <= i < |layer| ==> blocks[i] == Leaves(layer[i])
  {
    Map(n => Leaves(n), layer)
  }

  function JoinBlocks(blocks: seq<seq<Digest>>): (next: seq<seq<Digest>>)
    ensures |next| == (|blocks| + 1) / 2
    ensures forall i :: 0 <= i < |next| ==> next[i] == blocks[2 * i] + blocks[Partner(i, |blocks|)]
  {
    seq((|blocks| + 1) / 2, i requires 0 <= i < (|blocks| + 1) / 2 => blocks[2 * i] + blocks[Partner(i, |blocks|)])
  }

  function JoinAll(blocks: seq<seq<Digest>>): seq<Digest>
    requires blocks != []
    decreases |blocks|
  {
    if |blocks| == 1 then blocks[0] else JoinAll(JoinBlocks(blocks))
  }

  /** The leaf list after duplication: at every round neighbouring blocks join, and
      the last of an odd number of blocks joins a copy of itself. */
  function Padded(hashes: seq<Digest>): seq<Digest>
    requires hashes != []
  {
    JoinAll(Blocks(hashes))
  }

  lemma ParentShape(H: Hasher, l: MerkleNode, r: MerkleNode, height: nat)
    ensures Hashed(H, l) && Hashed(H, r) ==> Hashed(H, Parent(H, l, r))
    ensures Perfect(l, height) && Perfect(r, height) ==> Perfect(Parent(H, l, r), height + 1)
  {
  }

  lemma {:induction false} RaiseHashed(H: Hasher, layer: seq<MerkleNode>)
    requires layer != [] && forall i :: 0 <= i < |layer| ==> Hashed(H, layer[i])
    ensures Hashed(H, Raise(H, layer))
    decreases |layer|
  {
    if |layer| <= 1 {
    } else {
      var next := Above(H, layer);
      forall i | 0 <= i < |next|
        ensures Hashed(H, next[i])
      {
        ParentShape(H, layer[2 * i], layer[Partner(i, |layer|)], 0);
      }
      RaiseHashed(H, next);
    }
  }

  lemma {:induction false} RaisePerfect(H: Hasher, layer: seq<MerkleNode>, height: nat)
    requires layer != [] && forall i :: 0 <= i < |layer| ==> Perfect(layer[i], height)
    ensures Perfect(Raise(H, layer), height + Rounds(|layer|))
    decreases |layer|
  {
    if |layer| <= 1 {
    } else {
      var next := Above(H, layer);
      forall i | 0 <= i < |next|
        ensures Perfect(next[i], height + 1)
      {
        ParentShape(H, layer[2 * i], layer[Partner(i, |layer|)], height);
      }
      RaisePerfect(H, next, height + 1);
    }
  }

  lemma AboveLeaves(H: Hasher, layer: seq<MerkleNode>)
    ensures LeafLists(Above(H, layer)) == JoinBlocks(LeafLists(layer))
  {
    var next := Above(H, layer);
    forall i | 0 <= i < |next|
      ensures Leaves(next[i]) == Leaves(layer[2 * i]) + Leaves(layer[Partner(i, |layer|)])
    {
      assert next[i] == Parent(H, layer[2 * i], layer[Partner(i, |layer|)]);
    }
  }

  lemma {:induction false} RaiseLeaves(H: Hasher, layer: seq<MerkleNode>)
    requires layer != []
    ensures Leaves(Raise(H, layer)) == JoinAll(LeafLists(layer))
    decreases |layer|
  {
    if |layer| <= 1 {
    } else {
      AboveLeaves(H, layer);
      RaiseLeaves(H, Above(H, layer));
    }
  }

  lemma {:induction false} FlattenPairs(blocks: seq<seq<Digest>>)
    ensures Flatten(blocks) <= Flatten(JoinBlocks(blocks))
    decreases |blocks|
  {
    if blocks == [] {
    } else if |blocks| == 1 {
      assert JoinBlocks(blocks)[0] == blocks[0] + blocks[0];
    } else {
      FlattenPairs(blocks[2..]);
      assert JoinBlocks(blocks)[1..] == JoinBlocks(blocks[2..]);
      assert blocks[1..][1..] == blocks[2..];
      assert Flatten(blocks) == blocks[0] + (blocks[1] + Flatten(blocks[2..]));
      assert Flatten(JoinBlocks(blocks)) == blocks[0] + blocks[1] + Flatten(JoinBlocks(blocks[2..]));
    }
  }

  lemma {:induction false} JoinPrefix(blocks: seq<seq<Digest>>)
    requires blocks != []
    ensures Flatten(blocks) <= JoinAll(blocks)
    decreases |blocks|
  {
    if |blocks| == 1 {
      assert Flatten(blocks) == blocks[0] + Flatten(blocks[1..]);
    } else {
      FlattenPairs(blocks);
      JoinPrefix(JoinBlocks(blocks));
    }
  }

  lemma {:induction false} FlattenSingletons(hashes: seq<Digest>)
    ensures Flatten(Blocks(hashes)) == hashes
  {
    if hashes == [] {
    } else {
      FlattenSingletons(hashes[1..]);
      assert Blocks(hashes)[1..] == Blocks(hashes[1..]);
    }
  }

  lemma {:induction false} PerfectLeafCount(n: MerkleNode, height: nat)
    requires Perfect(n, height)
    ensures |Leaves(n)| == Pow2(height)
    decreases n
  {
    if n.Leaf? {
    } else {
      PerfectLeafCount(n.left, height - 1);
      PerfectLeafCount(n.right, height - 1);
    }
  }

  lemma {:induction false} RoundsBound(n: nat)
    requires n >= 1
    ensures n <= Pow2(Rounds(n)) < 2 * n
    ensures n >= 2 ==> Pow2(Rounds(n)) <= 2 * n - 2
  {
    if n == 1 {
    } else {
      RoundsBound((n + 1) / 2);
    }
  }

  /** The built tree is perfect and correctly hashed; its leaves are the padded
      list, which starts with the input and is less than twice as long. */
  lemma BuildShape(H: Hasher, hashes: seq<Digest>)
    requires hashes != []
    ensures Build(H, hashes).Some?
    ensures Perfect(Build(H, hashes).value, Rounds(|hashes|)) && Hashed(H, Build(H, hashes).value)
    ensures Leaves(Build(H, hashes).value) == Padded(hashes)
    ensures hashes <= Padded(hashes)
    ensures |Padded(hashes)| == Pow2(Rounds(|hashes|)) < 2 * |hashes|
  {
    var layer := LeafLayer(hashes);
    RaiseHashed(H, layer);
    RaisePerfect(H, layer, 0);
    RaiseLeaves(H, layer);
    assert LeafLists(layer) == Blocks(hashes);
    FlattenSingletons(hashes);
    JoinPrefix(Blocks(hashes));
    PerfectLeafCount(Build(H, hashes).value, Rounds(|hashes|));
    RoundsBound(|hashes|);
  }

  // ----- what a root says about the list -----

  ghost predicate NoNodeValues(H: Hasher, hashes: seq<Digest>) {
    forall d :: d in hashes ==> !IsNodeValue(H, d)
  }

  lemma HashKind(H: Hasher, n: MerkleNode)
    requires Hashed(H, n)
    ensures if n.Leaf? then n.hash in Leaves(n) else IsNodeValue(H, n.hash)
  {
  }

  /** Without leaf digests that are node values, equal hashes mean equal subtrees,
      even at different heights. */
  lemma {:induction false} EqualHashEqualTree(H: Hasher, a: MerkleNode, b: MerkleNode)
    requires NodeInjective(H) && Hashed(H, a) && Hashed(H, b) && a.hash == b.hash
    requires NoNodeValues(H, Leaves(a)) && NoNodeValues(H, Leaves(b))
    ensures a == b
    decreases a
  {
    HashKind(H, a);
    HashKind(H, b);
    if a.Leaf? || b.Leaf? {
    } else {
      assert forall d :: d in Leaves(a.left) || d in Leaves(a.right) ==> d in Leaves(a);
      assert forall d :: d in Leaves(b.left) || d in Leaves(b.right) ==> d in Leaves(b);
      EqualHashEqualTree(H, a.left, b.left);
      EqualHashEqualTree(H, a.right, b.right);
    }
  }

  /** At one height, a perfect tree is determined by its hash and by its leaves. */
  lemma {:induction false} PerfectDetermined(H: Hasher, a: MerkleNode, b: MerkleNode, height: nat)
    requires NodeInjective(H) && Hashed(H, a) && Hashed(H, b)
    requires Perfect(a, height) && Perfect(b, height)
    ensures a.hash == b.hash <==> a == b
    ensures Leaves(a) == Leaves(b) <==> a == b
    decreases height
  {
    if height == 0 {
    } else {
      PerfectDetermined(H, a.left, b.left, height - 1);
      PerfectDetermined(H, a.right, b.right, height - 1);
      PerfectLeafCount(a.left, height - 1);
      PerfectLeafCount(b.left, height - 1);
      var k := Pow2(height - 1);
      assert Leaves(a)[..k] == Leaves(a.left) && Leaves(b)[..k] == Leaves(b.left);
      assert Leaves(a)[k..] == Leaves(a.right) && Leaves(b)[k..] == Leaves(b.right);
    }
  }

  lemma {:induction false} Pow2Injective(i: nat, j: nat)
    requires Pow2(i) == Pow2(j)
    ensures i == j
  {
    if i == 0 || j == 0 {
    } else {
      Pow2Injective(i - 1, j - 1);
    }
  }

  lemma NodeValuesSubset(H: Hasher, s: seq<Digest>, t: seq<Digest>)
    requires NoNodeValues(H, t) && Elements(s) <= Elements(t)
    ensures NoNodeValues(H, s)
  {
    forall d | d in s
      ensures !IsNodeValue(H, d)
    {
      assert d in Elements(s);
      assert d in Elements(t);
    }
  }

  lemma BlockElements(s: seq<Digest>)
    ensures forall i, d :: 0 <= i < |s| && d in Blocks(s)[i] ==> d in s
  {
  }

  lemma {:induction false} JoinElements(blocks: seq<seq<Digest>>)
    requires blocks != []
    ensures forall d :: d in JoinAll(blocks) ==> exists i :: 0 <= i < |blocks| && d in blocks[i]
    decreases |blocks|
  {
    if |blocks| <= 1 {
    } else {
      var next := JoinBlocks(blocks);
      JoinElements(next);
      forall d | d in JoinAll(blocks)
        ensures exists i :: 0 <= i < |blocks| && d in blocks[i]
      {
        assert JoinAll(blocks) == JoinAll(next);
        var i :| 0 <= i < |next| && d in next[i];
        assert next[i] == blocks[2 * i] + blocks[Partner(i, |blocks|)];
      }
    }
  }

  /** Duplication invents no digests. */
  lemma PaddedElements(s: seq<Digest>)
    requires s != []
    ensures Elements(Padded(s)) == Elements(s)
  {
    BlockElements(s);
    JoinElements(Blocks(s));
    BuildShape(Hasher(b => "", (l, r) => "", ""), s);
  }

  lemma EqualRootsEqualPadding(H: Hasher, s: seq<Digest>, t: seq<Digest>)
    requires NodeInjective(H) && s != [] && t != []
    requires NoNodeValues(H, s) && NoNodeValues(H, t)
    requires Root(H, s) == Root(H, t)
    ensures Padded(s) == Padded(t)
  {
    BuildShape(H, s);
    BuildShape(H, t);
    PaddedElements(s);
    PaddedElements(t);
    NodeValuesSubset(H, Padded(s), s);
    NodeValuesSubset(H, Padded(t), t);
    EqualHashEqualTree(H, Build(H, s).value, Build(H, t).value);
  }

  lemma EqualPaddingEqualRoots(H: Hasher, s: seq<Digest>, t: seq<Digest>)
    requires NodeInjective(H) && s != [] && t != []
    requires Padded(s) == Padded(t)
    ensures Root(H, s) == Root(H, t)
  {
    BuildShape(H, s);
    BuildShape(H, t);
    Pow2Injective(Rounds(|s|), Rounds(|t|));
    PerfectDetermined(H, Build(H, s).value, Build(H, t).value, Rounds(|s|));
  }

  /** Two non-empty lists have the same root exactly when their padded lists agree. */
  lemma RootCharacterisation(H: Hasher, s: seq<Digest>, t: seq<Digest>)
    requires NodeInjective(H) && s != [] && t != []
    requires NoNodeValues(H, s) && NoNodeValues(H, t)
    ensures Root(H, s) == Root(H, t) <==> Padded(s) == Padded(t)
  {
    if Root(H, s) == Root(H, t) {
      EqualRootsEqualPadding(H, s, t);
    }
    if Padded(s) == Padded(t) {
      EqualPaddingEqualRoots(H, s, t);
    }
  }

  /** For lists of equal length the root accepts the original list and nothing else. */
  lemma RootBindsList(H: Hasher, s: seq<Digest>, t: seq<Digest>)
    requires NodeInjective(H) && |s| == |t|
    ensures Root(H, s) == Root(H, t) <==> s == t
  {
    if s != [] {
      BuildShape(H, s);
      BuildShape(H, t);
      PerfectDetermined(H, Build(H, s).value, Build(H, t).value, Rounds(|s|));
      if Padded(s) == Padded(t) {
        assert s == Padded(s)[..|s|] && t == Padded(t)[..|t|];
      }
    }
  }

  /** Lengths matter: repeating the last digest of an odd list does not change the root. */
  lemma OddTailInvisible(H: Hasher, s: seq<Digest>)
    requires |s| % 2 == 1 && |s| > 1
    ensures Root(H, s + [s[|s| - 1]]) == Root(H, s)
  {
    assert Above(H, LeafLayer(s + [s[|s| - 1]])) == Above(H, LeafLayer(s));
  }

  // ----- diff -----

  function NodeHashes(n: MerkleNode): set<Digest> {
    match n
    case Leaf(h) => {h}
    case Inner(h, l, r) => {h} + NodeHashes(l) + NodeHashes(r)
  }

  function AllNodeHashes(tree: Tree): set<Digest> {
    if tree.None? then {} else NodeHashes(tree.value)
  }

  function NewChunks(n: MerkleNode, other: set<Digest>): seq<Digest> {
    if n.hash in other then []
    else match n
      case Leaf(h) => [h]
      case Inner(_, l, r) => NewChunks(l, other) + NewChunks(r, other)
  }

  function Diff(tree: Tree, previous: Tree): seq<Digest> {
    if tree.None? then [] else NewChunks(tree.value, AllNodeHashes(previous))
  }

  function Size(n: MerkleNode): nat {
    match n
    case Leaf(_) => 1
    case Inner(_, l, r) => 1 + Size(l) + Size(r)
  }

  function StackSize(stack: seq<Tree>): nat {
    if stack == [] then 0
    else (if stack[0].None? then 1 else 3 * Size(stack[0].value)) + StackSize(stack[1..])
  }

  ghost function StackHashes(stack: seq<Tree>): set<Digest> {
    set i, d | 0 <= i < |stack| && d in AllNodeHashes(stack[i]) :: d
  }

  lemma {:induction false} StackSizeAppend(a: seq<Tree>, b: seq<Tree>)
    ensures StackSize(a + b) == StackSize(a) + StackSize(b)
  {
    if a == [] {
      assert a + b == b;
    } else {
      assert (a + b)[1..] == a[1..] + b;
      StackSizeAppend(a[1..], b);
    }
  }

  lemma StackHashesAppend(a: seq<Tree>, b: seq<Tree>)
    ensures StackHashes(a + b) == StackHashes(a) + StackHashes(b)
  {
    assert forall i :: 0 <= i < |b| ==> (a + b)[|a| + i] == b[i];
    assert forall i :: 0 <= i < |a| ==> (a + b)[i] == a[i];
  }

  lemma PopPush(rest: seq<Tree>, node: Tree)
    ensures StackSize(rest + [node]) == StackSize(rest) + StackSize([node])
    ensures StackHashes(rest + [node]) == StackHashes(rest) + AllNodeHashes(node)
  {
    StackSizeAppend(rest, [node]);
    StackHashesAppend(rest, [node]);
    assert [node][0] == node;
  }

  method Children(n: MerkleNode) returns (left: Tree, right: Tree)
    ensures AllNodeHashes(left) + AllNodeHashes(right) + {n.hash} == NodeHashes(n)
    ensures StackSize([left]) + StackSize([right]) < StackSize([Some(n)])
  {
    match n {
      case Leaf(_) => left, right := None, None;
      case Inner(_, l, r) => left, right := Some(l), Some(r);
    }
  }

  method CollectNodeHashes(tree: Tree) returns (hashes: set<Digest>)
    ensures hashes == AllNodeHashes(tree)
  {
    hashes := {};
    var stack := [tree];
    PopPush([], tree);
    assert [] + [tree] == stack;
    while stack != []
      invariant hashes + StackHashes(stack) == AllNodeHashes(tree)
      decreases StackSize(stack)
    {
      var node, rest := stack[|stack| - 1], stack[..|stack| - 1];
      assert stack == rest + [node];
      PopPush(rest, node);
      stack := rest;
      if node.None? {
        continue;
      }
      hashes := hashes + {node.value.hash};
      var left, right := Children(node.value);
      PopPush(rest, left);
      PopPush(rest + [left], right);
      stack := stack + [left];
      stack := stack + [right];
    }
  }

  method CollectNewChunks(node: Tree, other: set<Digest>, result: seq<Digest>) returns (result': seq<Digest>)
    ensures result' == result + if node.None? then [] else NewChunks(node.value, other)
    decreases if node.None? then 0 else Size(node.value)
  {
    if node.None? || node.value.hash in other {
      return result;
    }
    match node.value {
      case Leaf(h) => result' := result + [h];
      case Inner(_, l, r) =>
        result' := CollectNewChunks(Some(l), other, result);
        result' := CollectNewChunks(Some(r), other, result');
    }
  }

  method DiffTrees(tree: Tree, other: Tree) returns (result: seq<Digest>)
    ensures result == Diff(tree, other)
  {
    var otherHashes := CollectNodeHashes(other);
    result := CollectNewChunks(tree, otherHashes, []);
  }

  lemma {:induction false} LeavesAreNodeHashes(n: MerkleNode)
    ensures Elements(Leaves(n)) <= NodeHashes(n)
  {
    if n.Leaf? {
    } else {
      LeavesAreNodeHashes(n.left);
      LeavesAreNodeHashes(n.right);
    }
  }

  function InnerHashes(n: MerkleNode): set<Digest> {
    match n
    case Leaf(_) => {}
    case Inner(h, l, r) => {h} + InnerHashes(l) + InnerHashes(r)
  }

  /** A node hash of a hashed tree is the hash of one of its subtrees. */
  lemma {:induction false} FindSubtree(H: Hasher, n: MerkleNode, h: Digest) returns (m: MerkleNode)
    requires Hashed(H, n) && h in NodeHashes(n)
    ensures m.hash == h && Hashed(H, m)
    ensures Elements(Leaves(m)) <= Elements(Leaves(n)) && InnerHashes(m) <= InnerHashes(n)
  {
    if n.hash == h {
      m := n;
    } else if h in NodeHashes(n.left) {
      m := FindSubtree(H, n.left, h);
    } else {
      m := FindSubtree(H, n.right, h);
    }
  }

  /** Whatever the hash does, diff only reports digests that the other tree lacks. */
  lemma {:induction false} NewChunksSound(n: MerkleNode, other: set<Digest>)
    ensures Elements(NewChunks(n, other)) <= Elements(Leaves(n)) - other
  {
    if n.hash in other || n.Leaf? {
    } else {
      NewChunksSound(n.left, other);
      NewChunksSound(n.right, other);
      ElementsAppend(Leaves(n.left), Leaves(n.right));
      ElementsAppend(NewChunks(n.left, other), NewChunks(n.right, other));
    }
  }

  /** A new leaf digest that the old tree only has at an inner node. */
  ghost predicate LeafHidden(n: MerkleNode, o: MerkleNode) {
    exists d :: d in Leaves(n) && d in InnerHashes(o) && d !in Leaves(o)
  }

  /** An inner node over new digests whose own hash is a leaf of the old tree. */
  ghost predicate InnerHidden(n: MerkleNode, o: MerkleNode) {
    && n.Inner?
    && (|| (n.hash in Leaves(o) && !(Elements(Leaves(n)) <= Elements(Leaves(o))))
        || InnerHidden(n.left, o)
        || InnerHidden(n.right, o))
  }

  /** The walk prunes a subtree that still holds new digests. */
  ghost predicate Masked(n: MerkleNode, o: MerkleNode) {
    || (n.hash in NodeHashes(o) && !(Elements(Leaves(n)) <= Elements(Leaves(o))))
    || (n.Inner? && (Masked(n.left, o) || Masked(n.right, o)))
  }

  lemma {:induction false} HashesSplit(n: MerkleNode)
    ensures NodeHashes(n) == InnerHashes(n) + Elements(Leaves(n))
  {
    if n.Leaf? {
    } else {
      HashesSplit(n.left);
      HashesSplit(n.right);
      ElementsAppend(Leaves(n.left), Leaves(n.right));
    }
  }

  lemma {:induction false} CoveredNotMasked(n: MerkleNode, o: MerkleNode)
    requires Elements(Leaves(n)) <= Elements(Leaves(o))
    ensures !Masked(n, o)
  {
    if n.Leaf? {
    } else {
      ElementsAppend(Leaves(n.left), Leaves(n.right));
      CoveredNotMasked(n.left, o);
      CoveredNotMasked(n.right, o);
    }
  }

  lemma {:induction false} WithoutAll(xs: seq<Digest>, drop: set<Digest>)
    requires Elements(xs) <= drop
    ensures Without(xs, drop) == []
  {
    if xs == [] {
    } else {
      assert xs[0] in Elements(xs);
      assert Elements(xs[1..]) <= Elements(xs);
      WithoutAll(xs[1..], drop);
    }
  }

  /** The pruned walk never keeps more than a full scan, and keeps exactly the
      leaves a full scan would keep, in order, unless it prunes a new digest. */
  lemma {:induction false} NewChunksExact(n: MerkleNode, o: MerkleNode)
    ensures |NewChunks(n, NodeHashes(o))| <= |Without(Leaves(n), Elements(Leaves(o)))|
    ensures NewChunks(n, NodeHashes(o)) == Without(Leaves(n), Elements(Leaves(o))) <==> !Masked(n, o)
    decreases n
  {
    var drop := Elements(Leaves(o));
    HashesSplit(o);
    if n.hash in NodeHashes(o) {
      WithoutElements(Leaves(n), drop);
      if Elements(Leaves(n)) <= drop {
        WithoutAll(Leaves(n), drop);
        CoveredNotMasked(n, o);
      } else {
        var x :| x in Leaves(n) && x !in drop;
        assert x in Elements(Leaves(n)) - drop;
        assert x in Elements(Without(Leaves(n), drop));
      }
    } else if n.Leaf? {
    } else {
      NewChunksExact(n.left, o);
      NewChunksExact(n.right, o);
      WithoutAppend(Leaves(n.left), Leaves(n.right), drop);
      var a, b := NewChunks(n.left, NodeHashes(o)), NewChunks(n.right, NodeHashes(o));
      var c, d := Without(Leaves(n.left), drop), Without(Leaves(n.right), drop);
      if a + b == c + d {
        assert (a + b)[..|a|] == a && (c + d)[..|c|] == c;
        assert (a + b)[|a|..] == b && (c + d)[|c|..] == d;
      }
    }
  }

  lemma {:induction false} MatchCovers(H: Hasher, n: MerkleNode, m: MerkleNode, o: MerkleNode)
    requires NodeInjective(H) && Hashed(H, n) && Hashed(H, m) && n.hash == m.hash
    requires Elements(Leaves(m)) <= Elements(Leaves(o)) && InnerHashes(m) <= InnerHashes(o)
    requires !LeafHidden(n, o) && !InnerHidden(n, o)
    ensures Elements(Leaves(n)) <= Elements(Leaves(o))
    decreases n
  {
    match (n, m) {
      case (Inner(_, l, r), Inner(_, l', r')) =>
        ElementsAppend(Leaves(l), Leaves(r));
        ElementsAppend(Leaves(l'), Leaves(r'));
        assert forall d :: d in Leaves(l) || d in Leaves(r) ==> d in Leaves(n);
        MatchCovers(H, l, l', o);
        MatchCovers(H, r, r', o);
      case (Leaf(h), Inner(_, _, _)) =>
        assert h in Leaves(n) && h in InnerHashes(o);
      case (_, Leaf(h)) =>
        assert h in Elements(Leaves(m));
        assert n.Leaf? ==> Leaves(n) == [h];
    }
  }

  /** When the node hash is injective, only a digest that is a leaf on one side
      and an inner hash on the other can mislead the walk. */
  lemma {:induction false} MaskedWhen(H: Hasher, n: MerkleNode, o: MerkleNode)
    requires NodeInjective(H) && Hashed(H, n) && Hashed(H, o)
    ensures Masked(n, o) <==> LeafHidden(n, o) || InnerHidden(n, o)
    decreases n
  {
    HashesSplit(o);
    match n {
      case Leaf(h) =>
        assert Leaves(n) == [h];
        assert Elements(Leaves(n)) == {h};
      case Inner(_, l, r) =>
        MaskedWhen(H, l, o);
        MaskedWhen(H, r, o);
        assert LeafHidden(n, o) <==> LeafHidden(l, o) || LeafHidden(r, o);
        if n.hash in NodeHashes(o) && !LeafHidden(n, o) && !InnerHidden(n, o) {
          var m := FindSubtree(H, o, n.hash);
          MatchCovers(H, n, m, o);
        }
    }
  }

  /** Soundness of diff on lists needs no hypothesis on the hash. */
  lemma DiffSound(H: Hasher, current: seq<Digest>, previous: seq<Digest>)
    ensures Elements(Diff(Build(H, current), Build(H, previous))) <= Elements(current) - Elements(previous)
  {
    if current != [] {
      BuildShape(H, current);
      PaddedElements(current);
      NewChunksSound(Build(H, current).value, AllNodeHashes(Build(H, previous)));
      if previous != [] {
        BuildShape(H, previous);
        PaddedElements(previous);
        LeavesAreNodeHashes(Build(H, previous).value);
      }
    }
  }

  /** The exact condition under which the pruned diff of two lists lists the
      padded leaves that the other list lacks. */
  lemma DiffExactWhen(H: Hasher, current: seq<Digest>, previous: seq<Digest>)
    requires NodeInjective(H) && current != [] && previous != []
    ensures Build(H, current).Some? && Build(H, previous).Some?
    ensures var n, o := Build(H, current).value, Build(H, previous).value;
            Diff(Some(n), Some(o)) == Without(Padded(current), Elements(previous))
            <==> !LeafHidden(n, o) && !InnerHidden(n, o)
  {
    BuildShape(H, current);
    BuildShape(H, previous);
    PaddedElements(previous);
    NewChunksExact(Build(H, current).value, Build(H, previous).value);
    MaskedWhen(H, Build(H, current).value, Build(H, previous).value);
  }

  /** No digest is a leaf of one tree and, above digests that matter, an inner hash of the other. */
  ghost predicate Unmasked(H: Hasher, current: seq<Digest>, previous: seq<Digest>) {
    var n, o := Build(H, current), Build(H, previous);
    n.Some? && o.Some? ==> !LeafHidden(n.value, o.value) && !InnerHidden(n.value, o.value)
  }

  lemma {:induction false} NothingPruned(n: MerkleNode)
    ensures NewChunks(n, {}) == Leaves(n)
  {
    if n.Leaf? {
    } else {
      NothingPruned(n.left);
      NothingPruned(n.right);
    }
  }

  /** Unless a digest hides in the other tree, the pruned diff of two lists is their
      set difference, for every length and with repeats. */
  lemma DiffOfUnmasked(H: Hasher, current: seq<Digest>, previous: seq<Digest>)
    requires NodeInjective(H) && Unmasked(H, current, previous)
    ensures Elements(Diff(Build(H, current), Build(H, previous))) == Elements(current) - Elements(previous)
  {
    if current != [] {
      BuildShape(H, current);
      PaddedElements(current);
      if previous == [] {
        NothingPruned(Build(H, current).value);
      } else {
        DiffExactWhen(H, current, previous);
        WithoutElements(Padded(current), Elements(previous));
      }
    }
  }

  lemma {:induction false} NothingHidden(n: MerkleNode, o: MerkleNode)
    requires Elements(Leaves(n)) <= Elements(Leaves(o))
    ensures !LeafHidden(n, o) && !InnerHidden(n, o)
  {
    assert forall d :: d in Leaves(n) ==> d in Elements(Leaves(n)) && d in Elements(Leaves(o));
    if n.Leaf? {
    } else {
      ElementsAppend(Leaves(n.left), Leaves(n.right));
      NothingHidden(n.left, o);
      NothingHidden(n.right, o);
    }
  }

  /** Nothing is hidden from a list that adds no digest. */
  lemma CoveredUnmasked(H: Hasher, current: seq<Digest>, previous: seq<Digest>)
    requires Elements(current) <= Elements(previous)
    ensures Unmasked(H, current, previous)
  {
    if current != [] && previous != [] {
      BuildShape(H, current);
      BuildShape(H, previous);
      PaddedElements(current);
      PaddedElements(previous);
      NothingHidden(Build(H, current).value, Build(H, previous).value);
    }
  }

  lemma {:induction false} InnerHashesAreNodeValues(H: Hasher, n: MerkleNode)
    requires Hashed(H, n)
    ensures forall d :: d in InnerHashes(n) ==> IsNodeValue(H, d)
  {
    if n.Leaf? {
    } else {
      InnerHashesAreNodeValues(H, n.left);
      InnerHashesAreNodeValues(H, n.right);
    }
  }

  lemma {:induction false} InnerNeverLeaf(H: Hasher, n: MerkleNode, o: MerkleNode)
    requires Hashed(H, n) && NoNodeValues(H, Leaves(o))
    ensures !InnerHidden(n, o)
  {
    if n.Leaf? {
    } else {
      assert IsNodeValue(H, n.hash);
      InnerNeverLeaf(H, n.left, o);
      InnerNeverLeaf(H, n.right, o);
    }
  }

  /** Lists without node values never hide anything. */
  lemma PlainUnmasked(H: Hasher, current: seq<Digest>, previous: seq<Digest>)
    requires NoNodeValues(H, current) && NoNodeValues(H, previous)
    ensures Unmasked(H, current, previous)
  {
    if current != [] && previous != [] {
      BuildShape(H, current);
      BuildShape(H, previous);
      PaddedElements(current);
      PaddedElements(previous);
      var n, o := Build(H, current).value, Build(H, previous).value;
      NodeValuesSubset(H, Padded(current), current);
      NodeValuesSubset(H, Padded(previous), previous);
      InnerHashesAreNodeValues(H, o);
      InnerNeverLeaf(H, n, o);
    }
  }

  /** When no leaf is a node value, the pruned diff is the set difference. */
  lemma DiffIsSetDifference(H: Hasher, current: seq<Digest>, previous: seq<Digest>)
    requires NodeInjective(H) && NoNodeValues(H, current) && NoNodeValues(H, previous)
    ensures Elements(Diff(Build(H, current), Build(H, previous))) == Elements(current) - Elements(previous)
  {
    PlainUnmasked(H, current, previous);
    DiffOfUnmasked(H, current, previous);
  }

  /** Why leaves must not be node values: a digest that equals the root of the
      old tree is missing from the old list, and diff does not report it. */
  lemma DiffMissesNodeValue(H: Hasher, l: Digest, r: Digest)
    requires H.node(l, r) != l && H.node(l, r) != r
    ensures Elements([H.node(l, r)]) - Elements([l, r]) == {H.node(l, r)}
    ensures Diff(Build(H, [H.node(l, r)]), Build(H, [l, r])) == []
  {
    var layer := LeafLayer([l, r]);
    assert Above(H, layer) == [Parent(H, Leaf(l), Leaf(r))];
    assert Raise(H, layer) == Raise(H, [Parent(H, Leaf(l), Leaf(r))]);
    assert Build(H, [l, r]) == Some(Parent(H, Leaf(l), Leaf(r)));
    assert Build(H, [H.node(l, r)]) == Some(Leaf(H.node(l, r)));
  }
}
