/** Content-defined chunking: app/core/cdc.py. */
module Cdc {
  import opened Basics

  const WINDOW_SIZE := 48
  const MIN_CHUNK := 512
  const MAX_CHUNK := 8192
  const MASK_MODULUS := 8192  // TARGET_MASK + 1: `h & 0x1FFF == 0` is `h % 0x2000 == 0`
  const POLY := 0x3DA3358B4DC173
  const U64 := 0x1_0000_0000_0000_0000

  // ----- the naive window hash -----

  function Pow(n: nat): int {
    if n == 0 then 1 else Pow(n - 1) * POLY
  }

  /** The polynomial sum of s[j] * POLY^(|s|-1-j): the last byte has weight one. */
  function Polynomial(s: Bytes): int {
    if s == [] then 0 else s[0] * Pow(|s| - 1) + Polynomial(s[1..])
  }

  function WindowHash(s: Bytes): int {
    Polynomial(s) % U64
  }

  lemma Distribute(a: int, p: int, q: int)
    ensures (a * p + q) * POLY == a * (p * POLY) + q * POLY
  {
  }

  lemma {:induction false} PolynomialSnoc(s: Bytes, b: byte)
    ensures Polynomial(s + [b]) == Polynomial(s) * POLY + b
  {
    if s == [] {
      assert Polynomial([b]) == b * Pow(0) + Polynomial([b][1..]);
    } else {
      assert (s + [b])[1..] == s[1..] + [b];
      PolynomialSnoc(s[1..], b);
      Distribute(s[0], Pow(|s| - 1), Polynomial(s[1..]));
    }
  }

  /** Sliding the window by one byte, before reduction. */
  lemma PolynomialSlide(s: Bytes, b: byte)
    requires s != []
    ensures Polynomial(s[1..] + [b]) == Polynomial(s) * POLY - s[0] * Pow(|s|) + b
  {
    PolynomialSnoc(s[1..], b);
    Distribute(s[0], Pow(|s| - 1), Polynomial(s[1..]));
  }

  lemma MultipleSize(d: int, m: int)
    requires m > 0
    ensures d >= 1 ==> d * m >= m
    ensures d <= -1 ==> d * m <= -m
  {
    if d >= 1 {
      assert (d - 1) * m >= 0;
    } else if d <= -1 {
      assert (-1 - d) * m >= 0;
    }
  }

  lemma ModUnique(x: int, q: int, r: int, m: int)
    requires m > 0 && 0 <= r < m && x == q * m + r
    ensures x % m == r
  {
    var q', r' := x / m, x % m;
    var d := q - q';
    assert d * m == r' - r by {
      assert x == q' * m + r';
      assert d * m == q * m - q' * m;
    }
    MultipleSize(d, m);
  }

  lemma ModShift(x: int, k: int, m: int)
    requires m > 0
    ensures (x + k * m) % m == x % m
  {
    var q, r := x / m, x % m;
    assert x == q * m + r;
    assert x + k * m == (q + k) * m + r;
    ModUnique(x + k * m, q + k, r, m);
  }

  /** Reducing the hash and the table entry first makes no difference. */
  lemma ModRoll(x: int, p: int, y: int, c: int, m: int)
    requires m > 0
    ensures ((x % m) * p - y % m + c) % m == (x * p - y + c) % m
  {
    var q, r := x / m, x % m;
    var q', r' := y / m, y % m;
    var k := q' - q * p;
    calc {
      x * p - y + c + k * m;
      (q * m + r) * p - (q' * m + r') + c + (q' - q * p) * m;
      { assert (q * m + r) * p == q * p * m + r * p;
        assert (q' - q * p) * m == q' * m - q * p * m; }
      r * p - r' + c;
    }
    ModShift(x * p - y + c, k, m);
  }

  lemma ModScale(x: int, y: int, m: int)
    requires m > 0
    ensures (x * (y % m)) % m == (x * y) % m
  {
    var q, r := y / m, y % m;
    calc {
      x * y;
      x * (q * m + r);
      x * r + x * (q * m);
      { assert x * (q * m) == (x * q) * m; }
      x * r + (x * q) * m;
    }
    ModShift(x * r, x * q, m);
  }

  // ----- where a chunk ends -----

  /** A chunk that started at s[0] stops after its first e bytes when it is full
      or the 48 bytes before e hash to low bits zero. */
  predicate Boundary(s: Bytes, e: nat)
    requires MIN_CHUNK < e <= |s|
  {
    e >= MAX_CHUNK || WindowHash(s[e - WINDOW_SIZE..e]) % MASK_MODULUS == 0
  }

  /** c is the first boundary past the minimum size, or the end of the data. */
  ghost predicate FirstBoundary(s: Bytes, c: nat) {
    && 0 < c <= |s|
    && (forall e :: MIN_CHUNK < e < c ==> !Boundary(s, e))
    && (c < |s| ==> MIN_CHUNK < c && Boundary(s, c))
  }

  function ScanFrom(s: Bytes, e: nat): (c: nat)
    requires MIN_CHUNK <= e <= |s|
    ensures e <= c <= |s|
    decreases |s| - e
  {
    if e == |s| then e
    else if Boundary(s, e + 1) then e + 1
    else ScanFrom(s, e + 1)
  }

  function Cut(s: Bytes): (c: nat)
    requires s != []
    ensures 0 < c <= |s|
  {
    if |s| <= MIN_CHUNK then |s| else ScanFrom(s, MIN_CHUNK)
  }

  function Chunks(data: Bytes): seq<Bytes>
    decreases |data|
  {
    if data == [] then [] else
      var c := Cut(data);
      [data[..c]] + Chunks(data[c..])
  }

  lemma {:induction false} ScanFromFirst(s: Bytes, e: nat)
    requires MIN_CHUNK <= e < |s|
    ensures forall k :: e < k < ScanFrom(s, e) ==> !Boundary(s, k)
    ensures e < ScanFrom(s, e)
    ensures ScanFrom(s, e) < |s| ==> Boundary(s, ScanFrom(s, e))
    decreases |s| - e
  {
    if Boundary(s, e + 1) || e + 1 == |s| {
    } else {
      ScanFromFirst(s, e + 1);
    }
  }

  /** The scan finds the declarative cut, and no other position satisfies it. */
  lemma CutIsFirstBoundary(s: Bytes, c: nat)
    requires s != []
    ensures FirstBoundary(s, c) <==> c == Cut(s)
  {
    if |s| > MIN_CHUNK {
      ScanFromFirst(s, MIN_CHUNK);
    }
    assert FirstBoundary(s, Cut(s));
  }

  /** A polynomial by Horner's rule: the bytes are the digits of a number in base x. */
  function Horner(s: Bytes, x: int): int {
    if s == [] then 0 else Horner(s[..|s| - 1], x) * x + s[|s| - 1]
  }

  lemma {:induction false} PolynomialIsHorner(s: Bytes)
    ensures Polynomial(s) == Horner(s, 0x3DA3358B4DC173)
    decreases |s|
  {
    if s == [] {
    } else {
      var k := |s| - 1;
      assert s == s[..k] + [s[k]];
      PolynomialSnoc(s[..k], s[k]);
      PolynomialIsHorner(s[..k]);
    }
  }

  /** The rule in numbers: the 48 bytes before a stop, read in base 0x3DA3358B4DC173 and
      reduced modulo 2^64, leave the low 13 bits zero; at 8192 bytes the chunk is full. */
  predicate Stops(s: Bytes, e: nat)
    requires 48 <= e <= |s|
  {
    e >= 8192 || Horner(s[e - 48..e], 0x3DA3358B4DC173) % 0x1_0000_0000_0000_0000 % 0x2000 == 0
  }

  /** The first chunk of some data ends at c if and only if c is the first stop after 512
      bytes, or the end of the data before any; the window hash is the 64-bit one. */
  lemma CutRule(s: Bytes, c: nat)
    requires s != []
    ensures c == Cut(s) <==>
              && 0 < c <= |s|
              && (c == |s| || (c > 512 && Stops(s, c)))
              && forall e :: 512 < e < c ==> !Stops(s, e)
    ensures WindowHash(s) == Horner(s, 0x3DA3358B4DC173) % 0x1_0000_0000_0000_0000
  {
    CutIsFirstBoundary(s, c);
    PolynomialIsHorner(s);
    forall e | 512 < e <= |s|
      ensures Boundary(s, e) <==> Stops(s, e)
    {
      PolynomialIsHorner(s[e - 48..e]);
    }
  }

  // ----- what the partition promises -----

  lemma CutBounds(s: Bytes)
    requires s != []
    ensures Cut(s) <= MAX_CHUNK
    ensures Cut(s) < |s| ==> MIN_CHUNK < Cut(s)
  {
    CutIsFirstBoundary(s, Cut(s));
    assert Cut(s) > MAX_CHUNK ==> Boundary(s, MAX_CHUNK);
  }

  lemma {:induction false} ChunksConcatenate(data: Bytes)
    ensures Flatten(Chunks(data)) == data
    decreases |data|
  {
    if data == [] {
    } else {
      var c := Cut(data);
      ChunksConcatenate(data[c..]);
      assert Chunks(data)[1..] == Chunks(data[c..]);
      assert data == data[..c] + data[c..];
    }
  }

  lemma {:induction false} ChunkSizes(data: Bytes, i: nat)
    requires i < |Chunks(data)|
    ensures 0 < |Chunks(data)[i]| <= 8192
    ensures i < |Chunks(data)| - 1 ==> 513 <= |Chunks(data)[i]|
    decreases i
  {
    CutBounds(data);
    var rest := data[Cut(data)..];
    if i > 0 {
      ChunkSizes(rest, i - 1);
    } else {
      assert rest == [] ==> Chunks(rest) == [];
    }
  }

  /** The chunks concatenate to the data; each is non-empty and at most 8192 bytes,
      and all but the last have at least 513. */
  lemma ChunksPartition(data: Bytes)
    ensures Flatten(Chunks(data)) == data
    ensures forall i :: 0 <= i < |Chunks(data)| ==> 0 < |Chunks(data)[i]| <= 8192
    ensures forall i :: 0 <= i < |Chunks(data)| - 1 ==> 513 <= |Chunks(data)[i]|
  {
    ChunksConcatenate(data);
    forall i | 0 <= i < |Chunks(data)| {
      ChunkSizes(data, i);
    }
  }

  /** With k chunks of n > 0 bytes, (k-1)*513 < n <= k*8192. */
  lemma {:induction false} ChunkCount(data: Bytes)
    requires data != []
    ensures (|Chunks(data)| - 1) * 513 < |data| <= |Chunks(data)| * 8192
    decreases |data|
  {
    CutBounds(data);
    if Cut(data) == |data| {
    } else {
      ChunkCount(data[Cut(data)..]);
    }
  }

  /** A cut depends only on the bytes inside the chunk: any data that starts
      with the same non-final chunk is cut at the same place. */
  lemma CutLocal(s: Bytes, t: Bytes)
    requires s != [] && t != []
    requires Cut(s) < |s| && s[..Cut(s)] <= t
    ensures Cut(t) == Cut(s)
  {
    var c := Cut(s);
    CutIsFirstBoundary(s, c);
    forall e | MIN_CHUNK < e <= c
      ensures Boundary(t, e) == Boundary(s, e)
    {
      assert t[..c] == s[..c];
      assert s[e - WINDOW_SIZE..e] == s[..c][e - WINDOW_SIZE..e];
      assert t[e - WINDOW_SIZE..e] == t[..c][e - WINDOW_SIZE..e];
    }
    assert FirstBoundary(t, c);
    CutIsFirstBoundary(t, c);
  }

  lemma FirstChunks(data: Bytes, k: nat)
    requires 0 < k <= |Chunks(data)|
    ensures k - 1 <= |Chunks(data[Cut(data)..])|
    ensures Chunks(data)[k..] == Chunks(data[Cut(data)..])[k - 1..]
    ensures Flatten(Chunks(data)[..k]) == data[..Cut(data)] + Flatten(Chunks(data[Cut(data)..])[..k - 1])
  {
    FlattenTake(data[..Cut(data)], Chunks(data[Cut(data)..]), k);
  }

  /** The chunks after the k-th cut are the chunks of the remaining suffix. */
  lemma {:induction false} ChunksAfterCut(data: Bytes, k: nat)
    requires k <= |Chunks(data)|
    ensures |Flatten(Chunks(data)[..k])| <= |data|
    ensures Chunks(data)[k..] == Chunks(data[|Flatten(Chunks(data)[..k])|..])
    decreases k
  {
    if k == 0 {
      assert data[0..] == data;
    } else {
      var rest := data[Cut(data)..];
      ChunksAfterCut(rest, k - 1);
      FirstChunks(data, k);
      assert rest[|Flatten(Chunks(rest)[..k - 1])|..] == data[|Flatten(Chunks(data)[..k])|..];
    }
  }

  /** Resynchronisation: two inputs that share a suffix which starts at a cut
      in both have the same chunks from there on. */
  lemma Resynchronise(a: Bytes, j: nat, b: Bytes, k: nat)
    requires j <= |Chunks(a)| && k <= |Chunks(b)|
    requires |Flatten(Chunks(a)[..j])| <= |a| && |Flatten(Chunks(b)[..k])| <= |b|
    requires a[|Flatten(Chunks(a)[..j])|..] == b[|Flatten(Chunks(b)[..k])|..]
    ensures Chunks(a)[j..] == Chunks(b)[k..]
  {
    ChunksAfterCut(a, j);
    ChunksAfterCut(b, k);
  }

  /** Appending data leaves every chunk except possibly the last unchanged. */
  lemma {:induction false} AppendKeepsChunks(data: Bytes, more: Bytes)
    requires data != []
    ensures Chunks(data) != []
    ensures Chunks(data)[..|Chunks(data)| - 1] <= Chunks(data + more)
    decreases |data|
  {
    var c := Cut(data);
    if c < |data| {
      assert data[..c] <= data + more;
      CutLocal(data, data + more);
      assert (data + more)[c..] == data[c..] + more;
      AppendKeepsChunks(data[c..], more);
      var rest := Chunks(data[c..]);
      assert (data + more)[..c] == data[..c];
      assert Chunks(data + more) == [data[..c]] + Chunks(data[c..] + more);
      assert Chunks(data)[..|rest|] == [data[..c]] + rest[..|rest| - 1];
    } else {
      assert Chunks(data) == [data[..c]] + Chunks(data[c..]);
    }
  }

  lemma SingleChunk(data: Bytes)
    requires 0 < |data| <= MIN_CHUNK
    ensures Chunks(data) == [data]
  {
    assert data[..|data|] == data && data[|data|..] == [];
  }

  /** Chunking loses nothing: equal chunk lists come from equal data. */
  lemma ChunksInjective(a: Bytes, b: Bytes)
    ensures Chunks(a) == Chunks(b) <==> a == b
  {
    ChunksPartition(a);
    ChunksPartition(b);
  }

  // ----- the chunker -----

  /** The circular buffer is a rotation of the last 48 bytes before i. */
  ghost predicate Rotated(window: Bytes, data: Bytes, start: nat, i: nat)
    requires |window| == WINDOW_SIZE && start + WINDOW_SIZE <= i <= |data|
  {
    forall q :: i - WINDOW_SIZE <= q < i ==> window[(q - start) % WINDOW_SIZE] == data[q]
  }

  /** The hash and the buffer both describe the 48 bytes before position i. */
  ghost predicate InStep(window: Bytes, h: int, data: Bytes, start: nat, i: nat)
    requires |window| == WINDOW_SIZE && start + WINDOW_SIZE <= i <= |data|
  {
    Rotated(window, data, start, i) && h == WindowHash(data[i - WINDOW_SIZE..i])
  }

  lemma SeedRotated(window: Bytes, data: Bytes, start: nat)
    requires start + WINDOW_SIZE <= |data| && window == data[start..start + WINDOW_SIZE]
    ensures Rotated(window, data, start, start + WINDOW_SIZE)
  {
  }

  lemma SlotsDiffer(a: nat, b: nat)
    requires b - WINDOW_SIZE < a <= b
    ensures a % WINDOW_SIZE == b % WINDOW_SIZE <==> a == b
    ensures b >= WINDOW_SIZE ==> (b - WINDOW_SIZE) % WINDOW_SIZE == b % WINDOW_SIZE
  {
  }

  lemma SlotReplaced(window: Bytes, data: Bytes, start: nat, i: nat)
    requires |window| == WINDOW_SIZE && start + WINDOW_SIZE <= i < |data|
    requires Rotated(window, data, start, i)
    ensures Rotated(window[(i - start - WINDOW_SIZE) % WINDOW_SIZE := data[i]], data, start, i + 1)
  {
    var slot := (i - start - WINDOW_SIZE) % WINDOW_SIZE;
    forall q | i + 1 - WINDOW_SIZE <= q < i + 1
      ensures window[slot := data[i]][(q - start) % WINDOW_SIZE] == data[q]
    {
      SlotsDiffer(q - start, i - start);
    }
  }

  lemma WindowSlide(s: Bytes, b: byte)
    requires s != []
    ensures WindowHash(s[1..] + [b]) == (WindowHash(s) * POLY - (s[0] * Pow(|s|)) % U64 + b) % U64
  {
    PolynomialSlide(s, b);
    ModRoll(Polynomial(s), POLY, s[0] * Pow(|s|), b, U64);
  }

  /** The incremental update computes the hash of the window one byte further on. */
  lemma HashSlide(data: Bytes, i: nat)
    requires WINDOW_SIZE <= i < |data|
    ensures WindowHash(data[i + 1 - WINDOW_SIZE..i + 1])
         == (WindowHash(data[i - WINDOW_SIZE..i]) * POLY - (data[i - WINDOW_SIZE] * Pow(WINDOW_SIZE)) % U64 + data[i]) % U64
  {
    var s := data[i - WINDOW_SIZE..i];
    assert data[i + 1 - WINDOW_SIZE..i + 1] == s[1..] + [data[i]];
    WindowSlide(s, data[i]);
  }

  class CDCChunker {
    const outTable: seq<int>

    /** outTable[b] is the weight a byte b has just before it leaves the window. */
    ghost predicate Valid() {
      && |outTable| == 256
      && forall b :: 0 <= b < 256 ==> outTable[b] == (b * Pow(WINDOW_SIZE)) % U64
    }

    constructor ()
      ensures Valid()
    {
      var polyPow := 1;
      for i := 0 to WINDOW_SIZE
        invariant polyPow == Pow(i) % U64
      {
        ModScale(POLY, Pow(i), U64);
        polyPow := (polyPow * POLY) % U64;
      }
      outTable := seq(256, b requires 0 <= b < 256 => (b * polyPow) % U64);
      forall b | 0 <= b < 256 {
        ModScale(b, Pow(WINDOW_SIZE), U64);
      }
    }

    method RollingHash(data: Bytes, start: nat) returns (h: int, window: array<byte>)
      requires start <= |data|
      ensures fresh(window) && window.Length == WINDOW_SIZE
      ensures start + WINDOW_SIZE <= |data| ==>
                window[..] == data[start..start + WINDOW_SIZE] && h == WindowHash(window[..])
      ensures start + WINDOW_SIZE > |data| ==>
                window[..] == data[start..] + seq(start + WINDOW_SIZE - |data|, _ => 0)
                && h == WindowHash(data[start..])
    {
      window := new byte[WINDOW_SIZE](_ => 0);
      h := 0;
      var end := if start + WINDOW_SIZE < |data| then start + WINDOW_SIZE else |data|;
      for i := start to end
        invariant h == WindowHash(data[start..i])
        invariant forall k :: 0 <= k < WINDOW_SIZE ==> window[k] == if k < i - start then data[start + k] else 0
      {
        assert data[start..i + 1] == data[start..i] + [data[i]];
        PolynomialSnoc(data[start..i], data[i]);
        ModRoll(Polynomial(data[start..i]), POLY, 0, data[i], U64);
        h := (h * POLY + data[i]) % U64;
        window[i - start] := data[i];
      }
      if end == |data| {
        assert data[start..end] == data[start..];
      }
    }

    /** One step of the sliding window, with slot q - start (mod 48) holding data[q]. */
    method Roll(data: Bytes, start: nat, i: nat, h: int, window: array<byte>, winPos: nat) returns (h': int)
      requires Valid() && window.Length == WINDOW_SIZE
      requires start + WINDOW_SIZE <= i < |data| && winPos == i - start - WINDOW_SIZE
      requires InStep(window[..], h, data, start, i)
      modifies window
      ensures InStep(window[..], h', data, start, i + 1)
    {
      var outByte := window[winPos % WINDOW_SIZE];
      var inByte := data[i];
      assert outByte == data[i - WINDOW_SIZE] by {
        assert window[..][(i - WINDOW_SIZE - start) % WINDOW_SIZE] == data[i - WINDOW_SIZE];
      }
      HashSlide(data, i);
      h' := (h * POLY - outTable[outByte] + inByte) % U64;
      ghost var was := window[..];
      window[winPos % WINDOW_SIZE] := inByte;
      assert window[..] == was[winPos % WINDOW_SIZE := inByte];
      SlotReplaced(was, data, start, i);
    }

    /** Step 1: roll over the bytes up to the minimum size without looking for a boundary. */
    method FastForward(data: Bytes, chunkStart: nat, end: nat, h: int, window: array<byte>) returns (h': int, winPos: nat)
      requires Valid() && window.Length == WINDOW_SIZE
      requires chunkStart + WINDOW_SIZE <= end <= |data|
      requires InStep(window[..], h, data, chunkStart, chunkStart + WINDOW_SIZE)
      modifies window
      ensures InStep(window[..], h', data, chunkStart, end) && winPos == end - chunkStart - WINDOW_SIZE
    {
      h', winPos := h, 0;
      for i := chunkStart + WINDOW_SIZE to end
        invariant winPos == i - chunkStart - WINDOW_SIZE
        invariant InStep(window[..], h', data, chunkStart, i)
      {
        h' := Roll(data, chunkStart, i, h', window, winPos);
        winPos := winPos + 1;
      }
    }

    /** Step 2: scan for a boundary. */
    method Scan(data: Bytes, chunkStart: nat, from: nat, hash: int, window: array<byte>, rolled: nat) returns (pos: nat)
      requires Valid() && window.Length == WINDOW_SIZE
      requires chunkStart + MIN_CHUNK <= from <= |data| && rolled == from - chunkStart - WINDOW_SIZE
      requires InStep(window[..], hash, data, chunkStart, from)
      modifies window
      ensures pos == chunkStart + ScanFrom(data[chunkStart..], from - chunkStart)
    {
      ghost var s := data[chunkStart..];
      ghost var cut := ScanFrom(s, from - chunkStart);
      var h, winPos := hash, rolled;
      pos := from;
      while pos < |data|
        invariant from <= pos <= |data| && winPos == pos - chunkStart - WINDOW_SIZE
        invariant InStep(window[..], h, data, chunkStart, pos)
        invariant cut == ScanFrom(s, pos - chunkStart)
      {
        h := Roll(data, chunkStart, pos, h, window, winPos);
        winPos := winPos + 1;
        pos := pos + 1;
        var chunkLen := pos - chunkStart;
        assert s[chunkLen - WINDOW_SIZE..chunkLen] == data[pos - WINDOW_SIZE..pos];
        if chunkLen >= MAX_CHUNK {
          break;
        }
        if h % MASK_MODULUS == 0 && chunkLen >= MIN_CHUNK {
          break;
        }
      }
    }

    /** One chunk: seed, fast-forward to the minimum size, scan. */
    method FindCut(data: Bytes, chunkStart: nat) returns (pos: nat)
      requires Valid() && chunkStart < |data|
      ensures pos == chunkStart + Cut(data[chunkStart..])
    {
      var n := |data|;
      var h, window := RollingHash(data, chunkStart);
      var winPos := 0;
      pos := if chunkStart + MIN_CHUNK < n then chunkStart + MIN_CHUNK else n;
      if chunkStart + WINDOW_SIZE <= pos {
        SeedRotated(window[..], data, chunkStart);
        h, winPos := FastForward(data, chunkStart, pos, h, window);
      }
      if pos < n {
        pos := Scan(data, chunkStart, pos, h, window, winPos);
      }
    }

    method ChunkData(data: Bytes) returns (chunks: seq<Bytes>)
      requires Valid()
      ensures chunks == Chunks(data)
    {
      if data == [] {
        return [];
      }
      chunks := [];
      var pos, n := 0, |data|;
      while pos < n
        invariant 0 <= pos <= n
        invariant chunks + Chunks(data[pos..]) == Chunks(data)
      {
        var chunkStart := pos;
        ghost var s := data[chunkStart..];
        pos := FindCut(data, chunkStart);
        assert s[..Cut(s)] == data[chunkStart..pos] && s[Cut(s)..] == data[pos..];
        chunks := chunks + [data[chunkStart..pos]];
      }
    }
  }
}
