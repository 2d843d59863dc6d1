/** Python's `sorted` and `list.sort`, as a stable insertion sort by a given order,
    and the order of strings by code point. */
module Sorting {
  ghost predicate TotalPreorder<T(!new)>(leq: (T, T) -> bool) {
    && (forall a, b :: leq(a, b) || leq(b, a))
    && (forall a, b, c :: leq(a, b) && leq(b, c) ==> leq(a, c))
  }

  function Insert<T>(leq: (T, T) -> bool, x: T, xs: seq<T>): seq<T> {
    if xs == [] || !leq(xs[0], x) then [x] + xs else [xs[0]] + Insert(leq, x, xs[1..])
  }

  function Sorted<T>(leq: (T, T) -> bool, xs: seq<T>): seq<T>
    decreases |xs|
  {
    if xs == [] then [] else Insert(leq, xs[|xs| - 1], Sorted(leq, xs[..|xs| - 1]))
  }

  ghost predicate Ordered<T>(leq: (T, T) -> bool, xs: seq<T>) {
    forall i, j :: 0 <= i < j < |xs| ==> leq(xs[i], xs[j])
  }

  lemma {:induction false} InsertAdds<T>(leq: (T, T) -> bool, x: T, xs: seq<T>)
    ensures multiset(Insert(leq, x, xs)) == multiset(xs) + multiset{x}
  {
    if xs == [] || !leq(xs[0], x) {
    } else {
      InsertAdds(leq, x, xs[1..]);
      assert xs == [xs[0]] + xs[1..];
    }
  }

  lemma {:induction false} InsertOrdered<T(!new)>(leq: (T, T) -> bool, x: T, xs: seq<T>)
    requires TotalPreorder(leq) && Ordered(leq, xs)
    ensures Ordered(leq, Insert(leq, x, xs))
  {
    if xs == [] {
    } else if leq(xs[0], x) {
      var rest := Insert(leq, x, xs[1..]);
      InsertOrdered(leq, x, xs[1..]);
      InsertAdds(leq, x, xs[1..]);
      forall j | 0 <= j < |rest|
        ensures leq(xs[0], rest[j])
      {
        assert rest[j] in multiset(rest);
        assert rest[j] == x || rest[j] in xs[1..];
      }
    } else {
      forall j | 0 <= j < |xs|
        ensures leq(x, xs[j])
      {
        assert leq(x, xs[0]);
      }
    }
  }

  lemma {:induction false} SortedIsSorted<T(!new)>(leq: (T, T) -> bool, xs: seq<T>)
    requires TotalPreorder(leq)
    ensures Ordered(leq, Sorted(leq, xs)) && multiset(Sorted(leq, xs)) == multiset(xs)
    decreases |xs|
  {
    if xs == [] {
    } else {
      var front := xs[..|xs| - 1];
      SortedIsSorted(leq, front);
      InsertOrdered(leq, xs[|xs| - 1], Sorted(leq, front));
      InsertAdds(leq, xs[|xs| - 1], Sorted(leq, front));
      assert xs == front + [xs[|xs| - 1]];
    }
  }

  lemma SortedMember<T(!new)>(leq: (T, T) -> bool, xs: seq<T>, i: nat)
    requires TotalPreorder(leq) && i < |Sorted(leq, xs)|
    ensures Sorted(leq, xs)[i] in xs
  {
    SortedIsSorted(leq, xs);
    assert Sorted(leq, xs)[i] in multiset(Sorted(leq, xs));
  }

  // ----- strings -----

  predicate StringLeq(a: string, b: string) {
    a == [] || (b != [] && (a[0] < b[0] || (a[0] == b[0] && StringLeq(a[1..], b[1..]))))
  }

  lemma {:induction false} StringTotal(a: string, b: string)
    ensures StringLeq(a, b) || StringLeq(b, a)
    ensures StringLeq(a, b) && StringLeq(b, a) ==> a == b
  {
    if a == [] || b == [] || a[0] != b[0] {
    } else {
      StringTotal(a[1..], b[1..]);
      assert a == [a[0]] + a[1..] && b == [b[0]] + b[1..];
    }
  }

  lemma {:induction false} StringTransitive(a: string, b: string, c: string)
    requires StringLeq(a, b) && StringLeq(b, c)
    ensures StringLeq(a, c)
  {
    if a == [] || !(a[0] == b[0] == c[0]) {
    } else {
      StringTransitive(a[1..], b[1..], c[1..]);
    }
  }

  /** After a common start, the shorter string or the smaller character comes first. */
  lemma {:induction false} StringOrder(a: string, b: string)
    ensures StringLeq(a, b) <==>
              exists k :: 0 <= k <= |a| && k <= |b| && a[..k] == b[..k] && (k == |a| || (k < |b| && a[k] < b[k]))
  {
    if a == [] {
      assert a[..0] == b[..0];
    } else if b == [] || a[0] != b[0] {
      assert a[..0] == b[..0];
      assert forall k :: 0 < k <= |a| && k <= |b| ==> a[..k][0] != b[..k][0];
    } else {
      StringOrder(a[1..], b[1..]);
      if k :| 0 <= k <= |a| && k <= |b| && a[..k] == b[..k] && (k == |a| || (k < |b| && a[k] < b[k])) {
        assert k > 0;
        assert a[1..][..k - 1] == a[..k][1..] == b[..k][1..] == b[1..][..k - 1];
      }
      if k :| 0 <= k <= |a[1..]| && k <= |b[1..]| && a[1..][..k] == b[1..][..k] && (k == |a[1..]| || (k < |b[1..]| && a[1..][k] < b[1..][k])) {
        assert a[..k + 1] == [a[0]] + a[1..][..k] == b[..k + 1];
      }
    }
  }

  // ----- the keys of a dictionary in order -----

  ghost predicate IsLeast(k: string, keys: set<string>) {
    k in keys && forall j :: j in keys ==> StringLeq(k, j)
  }

  lemma LeastUnique(k: string, j: string, keys: set<string>)
    requires IsLeast(k, keys) && IsLeast(j, keys)
    ensures k == j
  {
    StringTotal(k, j);
  }

  method Least(keys: set<string>) returns (k: string)
    requires keys != {}
    ensures IsLeast(k, keys)
  {
    k :| k in keys;
    var rest := keys - {k};
    StringTotal(k, k);
    while rest != {}
      invariant rest <= keys && IsLeast(k, keys - rest)
      decreases rest
    {
      var j :| j in rest;
      StringTotal(j, j);
      if !StringLeq(k, j) {
        forall i | i in keys - rest
          ensures StringLeq(j, i)
        {
          StringTotal(k, j);
          StringTransitive(j, k, i);
        }
        k := j;
      }
      rest := rest - {j};
    }
    assert keys - rest == keys;
  }

  lemma {:induction false} LeastExists(keys: set<string>) returns (k: string)
    requires keys != {}
    ensures IsLeast(k, keys)
    decreases keys
  {
    var x :| x in keys;
    StringTotal(x, x);
    if keys == {x} {
      k := x;
    } else {
      var j := LeastExists(keys - {x});
      StringTotal(x, j);
      k := if StringLeq(x, j) then x else j;
      forall i | i in keys
        ensures StringLeq(k, i)
      {
        if i != x {
          if k == x { StringTransitive(x, j, i); }
        }
      }
    }
  }

  lemma HasLeast(keys: set<string>)
    requires keys != {}
    ensures exists k :: IsLeast(k, keys)
  {
    var k := LeastExists(keys);
  }

  ghost function SortedKeys(keys: set<string>): (names: seq<string>)
    decreases keys
  {
    if keys == {} then [] else
      HasLeast(keys);
      var k :| IsLeast(k, keys);
      [k] + SortedKeys(keys - {k})
  }

  /** Every key once, in ascending order. */
  lemma {:induction false} SortedKeysAre(keys: set<string>)
    ensures forall k :: k in SortedKeys(keys) <==> k in keys
    ensures forall i, j :: 0 <= i < j < |SortedKeys(keys)| ==>
              SortedKeys(keys)[i] != SortedKeys(keys)[j] && StringLeq(SortedKeys(keys)[i], SortedKeys(keys)[j])
    decreases keys
  {
    if keys == {} {
    } else {
      HasLeast(keys);
      var names := SortedKeys(keys);
      assert IsLeast(names[0], keys) && names[1..] == SortedKeys(keys - {names[0]});
      SortedKeysAre(keys - {names[0]});
      forall k
        ensures k in names <==> k in keys
      {
        assert names == [names[0]] + names[1..];
      }
      forall i, j | 0 <= i < j < |names|
        ensures names[i] != names[j] && StringLeq(names[i], names[j])
      {
        assert names[j] == names[1..][j - 1];
        assert names[1..][j - 1] in names[1..];
        if i > 0 {
          assert names[i] == names[1..][i - 1];
        }
      }
    }
  }

  lemma {:induction false} SortedKeysCount(keys: set<string>)
    ensures |SortedKeys(keys)| == |keys|
    decreases keys
  {
    if keys == {} {
    } else {
      HasLeast(keys);
      var k := SortedKeys(keys)[0];
      assert IsLeast(k, keys) && SortedKeys(keys)[1..] == SortedKeys(keys - {k});
      SortedKeysCount(keys - {k});
    }
  }

  method SortKeys(keys: set<string>) returns (names: seq<string>)
    ensures names == SortedKeys(keys)
  {
    names := [];
    var rest := keys;
    while rest != {}
      invariant names + SortedKeys(rest) == SortedKeys(keys)
      decreases rest
    {
      var k := Least(rest);
      forall j | IsLeast(j, rest) {
        LeastUnique(k, j, rest);
      }
      HasLeast(rest);
      assert SortedKeys(rest) == [k] + SortedKeys(rest - {k});
      names := names + [k];
      rest := rest - {k};
    }
  }
}
