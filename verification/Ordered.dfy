/** Ordered sets of strings and stable sorting, as the source's ordered collections and `sort`. */
module Ordered {
  import opened Strings

  predicate IsLeast(x: string, s: set<string>) {
    x in s && forall y <- s :: AtMost(x, y)
  }

  lemma {:induction false} LeastExists(s: set<string>)
    requires s != {}
    ensures exists least :: IsLeast(least, s)
    decreases |s|
  {
    var x :| x in s;
    var rest := s - {x};
    if rest == {} {
      assert s == {x};
      assert IsLeast(x, s);
    } else {
      LeastExists(rest);
      var y :| IsLeast(y, rest);
      LeastOfOneMore(rest, x, y);
      assert s == rest + {x};
    }
  }

  lemma LeastOfOneMore(rest: set<string>, x: string, y: string)
    requires IsLeast(y, rest)
    ensures IsLeast(if Less(x, y) then x else y, rest + {x})
  {
    hide Less;
    LessIsTotal(x, y);
    if Less(x, y) {
      forall z <- rest ensures AtMost(x, z) {
        if z != y { LessIsTransitive(x, y, z); }
      }
    }
  }

  /** The least element of a non-empty set. */
  ghost function Least(s: set<string>): (least: string)
    requires s != {}
    ensures IsLeast(least, s)
  {
    LeastExists(s);
    var least :| IsLeast(least, s);
    least
  }

  lemma LeastIsUnique(s: set<string>, x: string)
    requires IsLeast(x, s)
    ensures s != {} && Least(s) == x
  {
    if Least(s) != x {
      LessIsAsymmetric(Least(s), x);
    }
  }

  lemma LeastMeans(s: set<string>, x: string)
    ensures x in s && (forall y <- s :: AtMost(x, y)) <==> s != {} && x == Least(s)
  {
    if x in s && forall y <- s :: AtMost(x, y) { LeastIsUnique(s, x); }
  }

  ghost predicate StrictlySorted(keys: seq<string>) {
    forall i, j | 0 <= i < j < |keys| :: Less(keys[i], keys[j])
  }

  ghost predicate Enumerates(keys: seq<string>, s: set<string>) {
    StrictlySorted(keys) && forall k :: k in keys <==> k in s
  }

  /** The elements of a set in ascending order. */
  ghost function SortedKeys(s: set<string>): (keys: seq<string>)
    ensures Enumerates(keys, s)
    decreases |s|
  {
    if s == {} then [] else
      var least := Least(s);
      var rest := SortedKeys(s - {least});
      LeastThenRest(least, rest, s);
      [least] + rest
  }

  lemma LeastThenRest(least: string, rest: seq<string>, s: set<string>)
    requires IsLeast(least, s) && Enumerates(rest, s - {least})
    ensures Enumerates([least] + rest, s)
  {
    hide Less;
    var keys := [least] + rest;
    forall k ensures k in keys <==> k in s {
      assert k in keys <==> k == least || k in rest;
    }
    forall j | 0 < j < |keys| ensures Less(keys[0], keys[j]) {
      assert keys[j] in rest;
    }
  }

  /** A set has one ascending enumeration. */
  lemma {:induction false} EnumerationIsUnique(a: seq<string>, s: set<string>)
    requires Enumerates(a, s)
    ensures a == SortedKeys(s)
    decreases |s|
  {
    hide Less, StrictlySorted;
    if s == {} {
      assert forall k :: k !in a;
    } else {
      assert Least(s) in a;
      FirstIsLeast(a, s);
      LeastIsUnique(s, a[0]);
      EnumerationIsUnique(a[1..], s - {a[0]});
      assert a == [a[0]] + a[1..];
    }
  }

  lemma FirstIsLeast(a: seq<string>, s: set<string>)
    requires Enumerates(a, s) && a != []
    ensures IsLeast(a[0], s) && Enumerates(a[1..], s - {a[0]})
  {
    var rest := a[1..];
    assert a == [a[0]] + rest;
    forall k ensures k in rest <==> k in s - {a[0]} {
      assert k in a <==> k == a[0] || k in rest;
      if k in rest {
        var i :| 0 <= i < |rest| && rest[i] == k;
        assert a[i + 1] == k;
        LessIsAsymmetric(a[0], k);
      }
    }
    forall k <- s ensures AtMost(a[0], k) {
      assert k in a;
    }
  }

  lemma NotSeenBefore(keys: seq<string>, i: nat)
    requires StrictlySorted(keys) && i < |keys|
    ensures keys[i] !in keys[..i]
  {
    forall j | 0 <= j < i ensures keys[j] != keys[i] {
      LessIsAsymmetric(keys[j], keys[i]);
    }
  }

  /** The place of one key in a sorted list: everything before it is less, the rest at least it. */
  method LowerBound(keys: seq<string>, key: string) returns (at: nat)
    requires StrictlySorted(keys)
    ensures at <= |keys|
    ensures forall i | 0 <= i < at :: Less(keys[i], key)
    ensures forall i | at <= i < |keys| :: AtMost(key, keys[i])
  {
    at := 0;
    while at < |keys| && Less(keys[at], key)
      invariant at <= |keys|
      invariant forall i | 0 <= i < at :: Less(keys[i], key)
    {
      at := at + 1;
    }
    forall i | at <= i < |keys| ensures AtMost(key, keys[i]) {
      LessIsTotal(keys[at], key);
      if i > at && key != keys[at] { LessIsTransitive(key, keys[at], keys[i]); }
    }
  }

  /** Walk a map in the order of its keys, as an ordered map does. */
  method OrderedKeys<V>(m: map<string, V>) returns (keys: seq<string>)
    ensures keys == SortedKeys(m.Keys)
  {
    keys := [];
    var remaining := m.Keys;
    while remaining != {}
      invariant remaining <= m.Keys
      invariant Enumerates(keys, m.Keys - remaining)
      decreases |remaining|
    {
      var key :| key in remaining;
      remaining := remaining - {key};
      var at := LowerBound(keys, key);
      ghost var before := keys;
      forall i | at <= i < |keys| ensures Less(key, keys[i]) {
        assert keys[i] in keys;
      }
      keys := keys[..at] + [key] + keys[at..];
      assert forall k :: k in keys <==> k in before || k == key by {
        assert before == before[..at] + before[at..];
      }
    }
    EnumerationIsUnique(keys, m.Keys);
  }

  // ---- Sorting by a comparison ----

  ghost predicate IsTotalPreorder<T(!new)>(atMost: (T, T) -> bool) {
    && (forall x, y :: atMost(x, y) || atMost(y, x))
    && (forall x, y, z :: atMost(x, y) && atMost(y, z) ==> atMost(x, z))
  }

  ghost predicate Sorted<T>(xs: seq<T>, atMost: (T, T) -> bool) {
    forall i, j | 0 <= i < j < |xs| :: atMost(xs[i], xs[j])
  }

  function Insert<T>(x: T, xs: seq<T>, atMost: (T, T) -> bool): seq<T> {
    if xs == [] || atMost(x, xs[0]) then [x] + xs else [xs[0]] + Insert(x, xs[1..], atMost)
  }

  /** Stable sort. */
  function Sort<T>(xs: seq<T>, atMost: (T, T) -> bool): seq<T> {
    if xs == [] then [] else Insert(xs[0], Sort(xs[1..], atMost), atMost)
  }

  lemma {:induction false} InsertSorts<T(!new)>(x: T, xs: seq<T>, atMost: (T, T) -> bool)
    requires IsTotalPreorder(atMost) && Sorted(xs, atMost)
    ensures Sorted(Insert(x, xs, atMost), atMost)
    ensures multiset(Insert(x, xs, atMost)) == multiset([x]) + multiset(xs)
  {
    if xs == [] || atMost(x, xs[0]) {
    } else {
      InsertSorts(x, xs[1..], atMost);
      var rest := Insert(x, xs[1..], atMost);
      assert xs == [xs[0]] + xs[1..];
      hide Insert;
      FirstStays(x, xs, rest, atMost);
    }
  }

  lemma FirstStays<T(!new)>(x: T, xs: seq<T>, rest: seq<T>, atMost: (T, T) -> bool)
    requires Sorted(xs, atMost) && xs != [] && atMost(xs[0], x)
    requires Sorted(rest, atMost) && multiset(rest) == multiset([x]) + multiset(xs[1..])
    ensures Sorted([xs[0]] + rest, atMost)
  {
    forall j | 0 <= j < |rest| ensures atMost(xs[0], rest[j]) {
      assert rest[j] in multiset(rest);
      assert rest[j] == x || rest[j] in xs[1..];
    }
  }

  lemma {:induction false} SortSorts<T(!new)>(xs: seq<T>, atMost: (T, T) -> bool)
    requires IsTotalPreorder(atMost)
    ensures Sorted(Sort(xs, atMost), atMost)
    ensures multiset(Sort(xs, atMost)) == multiset(xs)
  {
    if xs != [] {
      SortSorts(xs[1..], atMost);
      InsertSorts(xs[0], Sort(xs[1..], atMost), atMost);
      assert xs == [xs[0]] + xs[1..];
    }
  }

  /** The comparison tells the elements of a list apart. */
  ghost predicate Distinguishes<T>(atMost: (T, T) -> bool, xs: seq<T>) {
    forall x, y | x in xs && y in xs && atMost(x, y) && atMost(y, x) :: x == y
  }

  lemma FirstOfSorted<T(!new)>(a: seq<T>, b: seq<T>, atMost: (T, T) -> bool)
    requires IsTotalPreorder(atMost) && Sorted(a, atMost) && Sorted(b, atMost)
    requires multiset(a) == multiset(b) && a != []
    ensures b != [] && atMost(a[0], b[0]) && atMost(b[0], a[0]) && b[0] in a
  {
    assert |multiset(a)| == |multiset(b)|;
    assert a[0] in multiset(b) && b[0] in multiset(a);
    var i :| 0 <= i < |a| && a[i] == b[0];
    var j :| 0 <= j < |b| && b[j] == a[0];
  }

  /** Where the comparison tells elements apart there is only one sorted order. */
  lemma {:induction false} SortedOrderIsUnique<T(!new)>(a: seq<T>, b: seq<T>, atMost: (T, T) -> bool)
    requires IsTotalPreorder(atMost) && Sorted(a, atMost) && Sorted(b, atMost)
    requires multiset(a) == multiset(b)
    requires Distinguishes(atMost, a)
    ensures a == b
  {
    if a == [] {
      assert |multiset(b)| == 0;
    } else {
      FirstOfSorted(a, b, atMost);
      assert a[0] in a && a[0] == b[0];
      RestsOfSorted(a, b, atMost);
      hide IsTotalPreorder, Sorted, Distinguishes;
      SortedOrderIsUnique(a[1..], b[1..], atMost);
      assert a == [a[0]] + a[1..] && b == [b[0]] + b[1..];
    }
  }

  lemma RestsOfSorted<T>(a: seq<T>, b: seq<T>, atMost: (T, T) -> bool)
    requires Sorted(a, atMost) && Sorted(b, atMost) && Distinguishes(atMost, a)
    requires multiset(a) == multiset(b) && a != [] && b != [] && a[0] == b[0]
    ensures Sorted(a[1..], atMost) && Sorted(b[1..], atMost) && Distinguishes(atMost, a[1..])
    ensures multiset(a[1..]) == multiset(b[1..])
  {
    RestOfMultiset(a);
    RestOfMultiset(b);
    forall x | x in a[1..] ensures x in a {
    }
  }

  lemma RestOfMultiset<T>(a: seq<T>)
    requires a != []
    ensures multiset(a[1..]) == multiset(a) - multiset{a[0]}
  {
    assert a == [a[0]] + a[1..];
  }

  /** Sorting is blind to the order of its input wherever the comparison tells elements apart. */
  lemma SortIsOrderBlind<T(!new)>(xs: seq<T>, ys: seq<T>, atMost: (T, T) -> bool)
    requires IsTotalPreorder(atMost) && multiset(xs) == multiset(ys)
    requires Distinguishes(atMost, xs)
    ensures Sort(xs, atMost) == Sort(ys, atMost)
  {
    SortSorts(xs, atMost);
    SortSorts(ys, atMost);
    assert forall x :: x in Sort(xs, atMost) <==> x in multiset(xs);
    assert forall x :: x in xs <==> x in multiset(xs);
    SortedOrderIsUnique(Sort(xs, atMost), Sort(ys, atMost), atMost);
  }

  lemma AtMostIsTotalPreorder()
    ensures IsTotalPreorder(AtMost)
  {
    forall x, y ensures AtMost(x, y) || AtMost(y, x) { LessIsTotal(x, y); }
    forall x, y, z | AtMost(x, y) && AtMost(y, z) ensures AtMost(x, z) {
      if x != y && y != z { LessIsTransitive(x, y, z); }
    }
  }

  // ---- Reorderings ----

  /** One text of each element. */
  function Names<T>(xs: seq<T>, name: T -> string): seq<string> {
    seq(|xs|, i requires 0 <= i < |xs| => name(xs[i]))
  }

  lemma OneAside<T>(xs: seq<T>, i: nat)
    requires i < |xs|
    ensures multiset(xs) == multiset(xs[..i] + xs[i + 1..]) + multiset{xs[i]}
  {
    assert xs == xs[..i] + [xs[i]] + xs[i + 1..];
  }

  /** Where a reordering holds the first element; the rests are reorderings of each other. */
  lemma FirstElsewhere<T>(xs: seq<T>, ys: seq<T>) returns (i: nat)
    requires multiset(xs) == multiset(ys) && xs != []
    ensures i < |ys| && ys[i] == xs[0]
    ensures multiset(xs[1..]) == multiset(ys[..i] + ys[i + 1..])
  {
    assert xs[0] in multiset(ys);
    i :| 0 <= i < |ys| && ys[i] == xs[0];
    OneAside(xs, 0);
    OneAside(ys, i);
    assert xs[..0] + xs[1..] == xs[1..];
    assert multiset(xs[1..]) == multiset(xs) - multiset{xs[0]};
  }

  lemma OneNameAside<T>(xs: seq<T>, i: nat, name: T -> string)
    requires i < |xs|
    ensures multiset(Names(xs, name))
         == multiset(Names(xs[..i] + xs[i + 1..], name)) + multiset{name(xs[i])}
  {
    OneAside(Names(xs, name), i);
    assert Names(xs[..i] + xs[i + 1..], name) == Names(xs, name)[..i] + Names(xs, name)[i + 1..];
  }

  /** Reordering a list reorders its names. */
  lemma {:induction false} NamesOfPermutation<T>(xs: seq<T>, ys: seq<T>, name: T -> string)
    requires multiset(xs) == multiset(ys)
    ensures multiset(Names(xs, name)) == multiset(Names(ys, name))
  {
    if xs == [] {
      assert |multiset(xs)| == |multiset(ys)|;
    } else {
      var i := FirstElsewhere(xs, ys);
      OneNameAside(xs, 0, name);
      OneNameAside(ys, i, name);
      assert xs[..0] + xs[1..] == xs[1..];
      NamesOfPermutation(xs[1..], ys[..i] + ys[i + 1..], name);
    }
  }
}
