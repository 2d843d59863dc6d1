/** SHA-256 as the rest of the system sees it: digests of chunks, of pairs of
    digests, and of nothing. The hash itself is a parameter. */
module Hashing {
  import opened Basics

  type Digest = string

  /** node(l, r) stands for the hash of the two hex digests written one after the other. */
  datatype Hasher = Hasher(chunk: Bytes -> Digest, node: (Digest, Digest) -> Digest, empty: Digest)

  ghost predicate NodeInjective(H: Hasher) {
    forall l, r, l', r' :: H.node(l, r) == H.node(l', r') ==> l == l' && r == r'
  }

  ghost predicate ChunkInjective(H: Hasher) {
    forall a, b :: H.chunk(a) == H.chunk(b) ==> a == b
  }

  ghost predicate IsNodeValue(H: Hasher, d: Digest) {
    exists l, r :: d == H.node(l, r)
  }

  predicate HexDigit(b: byte) {
    48 <= b <= 57 || 97 <= b <= 102
  }

  /** Content that could be the text hashed at an inner tree node: 128 hex digits. */
  predicate HexPair(data: Bytes) {
    |data| == 128 && forall i :: 0 <= i < |data| ==> HexDigit(data[i])
  }

  /** No other content collides with an inner tree node. */
  ghost predicate Separated(H: Hasher) {
    forall data, l, r :: H.chunk(data) == H.node(l, r) ==> HexPair(data)
  }

  /** The collision-freedom that the results about whole runs assume. */
  ghost predicate CollisionFree(H: Hasher) {
    NodeInjective(H) && ChunkInjective(H) && Separated(H)
  }

  /** The hasher that one byte-string hash and one hex rendering induce. */
  function FromSha(sha: Bytes -> Digest, hex: Digest -> Bytes): Hasher {
    Hasher(sha, (l, r) => sha(hex(l) + hex(r)), sha([]))
  }

  /** Why `Separated` has an exception: a chunk that spells two digests has, for
      every hash function, the digest of the inner node above them. */
  lemma SpelledDigestsCollide(sha: Bytes -> Digest, hex: Digest -> Bytes, l: Digest, r: Digest)
    requires forall d :: |hex(d)| == 64 && forall i :: 0 <= i < 64 ==> HexDigit(hex(d)[i])
    ensures HexPair(hex(l) + hex(r))
    ensures IsNodeValue(FromSha(sha, hex), FromSha(sha, hex).chunk(hex(l) + hex(r)))
  {
    assert FromSha(sha, hex).chunk(hex(l) + hex(r)) == FromSha(sha, hex).node(l, r);
  }

  // ----- a collision-free hasher exists -----

  function SpellBytes(data: Bytes): string {
    seq(|data|, i requires 0 <= i < |data| => data[i] as char)
  }

  /** Digests are written out in full; the left length in unary separates the two halves. */
  function FreeHasher(): Hasher {
    Hasher(data => "c" + SpellBytes(data),
           (l: Digest, r: Digest) => "n" + seq(|l|, _ => '1') + "0" + l + r,
           "e")
  }

  lemma FreeNodeInjective(l: Digest, r: Digest, l': Digest, r': Digest)
    requires FreeHasher().node(l, r) == FreeHasher().node(l', r')
    ensures l == l' && r == r'
  {
    var x, y := FreeHasher().node(l, r), FreeHasher().node(l', r');
    assert x[|l| + 1] == '0' && y[|l'| + 1] == '0';
    assert forall i :: 1 <= i <= |l| ==> x[i] == '1';
    assert forall i :: 1 <= i <= |l'| ==> y[i] == '1';
    assert |l| == |l'|;
    assert x[|l| + 2..] == l + r && y[|l'| + 2..] == l' + r';
    assert (l + r)[..|l|] == l && (l' + r')[..|l'|] == l';
    assert (l + r)[|l|..] == r && (l' + r')[|l'|..] == r';
  }

  lemma FreeHasherIsCollisionFree()
    ensures CollisionFree(FreeHasher())
  {
    var H := FreeHasher();
    forall a, b | H.chunk(a) == H.chunk(b)
      ensures a == b
    {
      assert H.chunk(a)[1..] == SpellBytes(a) && H.chunk(b)[1..] == SpellBytes(b);
      assert forall i :: 0 <= i < |a| ==> SpellBytes(a)[i] as int == a[i];
      assert forall i :: 0 <= i < |b| ==> SpellBytes(b)[i] as int == b[i];
    }
    forall l, r, l', r' | H.node(l, r) == H.node(l', r')
      ensures l == l' && r == r'
    {
      FreeNodeInjective(l, r, l', r');
    }
    forall data, l, r
      ensures H.chunk(data) != H.node(l, r)
    {
      assert H.chunk(data)[0] == 'c' && H.node(l, r)[0] == 'n';
    }
  }
}
