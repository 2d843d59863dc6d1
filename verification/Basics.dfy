/** Byte strings, optional values and the few list operations every other module uses. */
module Basics {
  type byte = x: int | 0 <= x < 256
  type Bytes = seq<byte>

  datatype Option<+T> = None | Some(value: T)
  datatype Result<+T, +E> = Ok(value: T) | Err(error: E)

  /** Concatenation of a list of lists (`b"".join`, `list.extend`). */
  function Flatten<T>(parts: seq<seq<T>>): seq<T> {
    if parts == [] then [] else parts[0] + Flatten(parts[1..])
  }

  function Map<S, T>(f: S -> T, xs: seq<S>): (ys: seq<T>)
    ensures |ys| == |xs|
    ensures forall i :: 0 <= i < |xs| ==> ys[i] == f(xs[i])
  {
    seq(|xs|, i requires 0 <= i < |xs| => f(xs[i]))
  }

  /** The elements of xs that lie outside `drop`, in order and with repeats. */
  function Without<T(==)>(xs: seq<T>, drop: set<T>): seq<T> {
    if xs == [] then []
    else (if xs[0] in drop then [] else [xs[0]]) + Without(xs[1..], drop)
  }

  function Elements<T>(xs: seq<T>): set<T> {
    set x | x in xs
  }

  function SumNat(xs: seq<nat>): nat {
    if xs == [] then 0 else xs[0] + SumNat(xs[1..])
  }

  lemma {:induction false} FlattenAppend<T>(a: seq<seq<T>>, b: seq<seq<T>>)
    ensures Flatten(a + b) == Flatten(a) + Flatten(b)
  {
    if a == [] {
      assert a + b == b;
    } else {
      assert (a + b)[1..] == a[1..] + b;
      FlattenAppend(a[1..], b);
    }
  }

  lemma FlattenSnoc<T>(a: seq<seq<T>>, x: seq<T>)
    ensures Flatten(a + [x]) == Flatten(a) + x
  {
    FlattenAppend(a, [x]);
    assert Flatten([x]) == x + Flatten([x][1..]);
  }

  lemma FlattenTake<T>(first: seq<T>, rest: seq<seq<T>>, k: nat)
    requires 0 < k <= |rest| + 1
    ensures ([first] + rest)[k..] == rest[k - 1..]
    ensures Flatten(([first] + rest)[..k]) == first + Flatten(rest[..k - 1])
  {
    assert ([first] + rest)[..k] == [first] + rest[..k - 1];
  }

  /** Lists whose parts have the same lengths have different concatenations when some part differs. */
  lemma {:induction false} FlattenDiffers<T>(a: seq<seq<T>>, b: seq<seq<T>>, k: nat)
    requires |a| == |b| && (forall i :: 0 <= i < |a| ==> |a[i]| == |b[i]|)
    requires k < |a| && a[k] != b[k]
    ensures Flatten(a) != Flatten(b)
    decreases |a|
  {
    if Flatten(a) == Flatten(b) {
      assert a[0] == Flatten(a)[..|a[0]|] && b[0] == Flatten(b)[..|b[0]|];
      assert Flatten(a[1..]) == Flatten(a)[|a[0]|..] && Flatten(b[1..]) == Flatten(b)[|b[0]|..];
      FlattenDiffers(a[1..], b[1..], k - 1);
    }
  }

  lemma ElementsAppend<T>(a: seq<T>, b: seq<T>)
    ensures Elements(a + b) == Elements(a) + Elements(b)
  {
  }

  lemma NoElements<T>(xs: seq<T>)
    ensures Elements(xs) == {} <==> xs == []
  {
    assert |xs| > 0 ==> xs[0] in Elements(xs);
  }

  lemma {:induction false} Smaller<T>(a: set<T>, b: set<T>)
    requires a <= b
    ensures |a| <= |b|
    ensures a != b ==> |a| < |b|
    decreases |a|
  {
    if a == {} {
    } else {
      var x :| x in a;
      Smaller(a - {x}, b - {x});
      assert a != b ==> a - {x} != b - {x} by {
        if a - {x} == b - {x} {
          assert a == a - {x} + {x} && b == b - {x} + {x};
        }
      }
    }
  }

  lemma {:induction false} WithoutElements<T>(xs: seq<T>, drop: set<T>)
    ensures Elements(Without(xs, drop)) == Elements(xs) - drop
  {
    if xs == [] {
    } else {
      WithoutElements(xs[1..], drop);
      assert xs == [xs[0]] + xs[1..];
      var rest := Without(xs[1..], drop);
      assert Elements([xs[0]] + rest) == {xs[0]} + Elements(rest);
      assert Elements(xs) == {xs[0]} + Elements(xs[1..]);
      assert [] + rest == rest;
    }
  }

  lemma {:induction false} WithoutAppend<T>(a: seq<T>, b: seq<T>, drop: set<T>)
    ensures Without(a + b, drop) == Without(a, drop) + Without(b, drop)
  {
    if a == [] {
      assert a + b == b;
    } else {
      assert (a + b)[1..] == a[1..] + b;
      WithoutAppend(a[1..], b, drop);
    }
  }

  lemma {:induction false} SumNatAppend(a: seq<nat>, b: seq<nat>)
    ensures SumNat(a + b) == SumNat(a) + SumNat(b)
  {
    if a == [] {
      assert a + b == b;
    } else {
      assert (a + b)[1..] == a[1..] + b;
      SumNatAppend(a[1..], b);
    }
  }

  lemma MapAppend<S, T>(f: S -> T, a: seq<S>, b: seq<S>)
    ensures Map(f, a + b) == Map(f, a) + Map(f, b)
  {
  }
}
