/** `list.sort(key=key, reverse=True)`: Python's sort is stable, so
    elements of equal key keep the order they were in. The in-place
    algorithm is the library's; this module gives its result as an
    insertion sort and proves the properties that pin that result down. */
module Ordering {

  /** Keys never increase along the sequence. */
  predicate Descending<T>(xs: seq<T>, key: T -> nat)
  {
    forall i, j :: 0 <= i < j < |xs| ==> key(xs[i]) >= key(xs[j])
  }

  /** No two elements agree on q. */
  predicate Distinct<T, Q(==)>(xs: seq<T>, q: T -> Q)
  {
    forall i, j :: 0 <= i < j < |xs| ==> q(xs[i]) != q(xs[j])
  }

  /** v placed after every element whose key is at least its own. */
  function Insert<T(==)>(v: T, xs: seq<T>, key: T -> nat): (r: seq<T>)
    ensures multiset(r) == multiset(xs) + multiset{v}
  {
    if xs == [] || key(xs[0]) < key(v) then [v] + xs
    else
      assert xs == [xs[0]] + xs[1..];
      [xs[0]] + Insert(v, xs[1..], key)
  }

  /** The sorted list: each element inserted after the ones before it. */
  function SortBy<T(==)>(xs: seq<T>, key: T -> nat): (r: seq<T>)
    ensures multiset(r) == multiset(xs)
  {
    if xs == [] then []
    else
      assert xs == xs[..|xs| - 1] + [xs[|xs| - 1]];
      Insert(xs[|xs| - 1], SortBy(xs[..|xs| - 1], key), key)
  }

  /** The elements with key h, in order. */
  function OfKey<T>(xs: seq<T>, key: T -> nat, h: nat): seq<T>
  {
    if xs == [] then []
    else (if key(xs[0]) == h then [xs[0]] else []) + OfKey(xs[1..], key, h)
  }

  lemma OfKeyCons<T>(v: T, xs: seq<T>, key: T -> nat, h: nat)
    ensures OfKey([v] + xs, key, h) == (if key(v) == h then [v] else []) + OfKey(xs, key, h)
  {
    assert ([v] + xs)[1..] == xs;
  }

  lemma {:induction false} OfKeyAppend<T>(a: seq<T>, b: seq<T>, key: T -> nat, h: nat)
    ensures OfKey(a + b, key, h) == OfKey(a, key, h) + OfKey(b, key, h)
  {
    if a == [] {
      assert a + b == b;
    } else {
      OfKeyAppend(a[1..], b, key, h);
      assert a + b == [a[0]] + (a[1..] + b);
      OfKeyCons(a[0], a[1..] + b, key, h);
      OfKeyCons(a[0], a[1..], key, h);
      assert [a[0]] + a[1..] == a;
    }
  }

  lemma {:induction false} OfKeyNone<T>(xs: seq<T>, key: T -> nat, h: nat)
    requires forall i :: 0 <= i < |xs| ==> key(xs[i]) != h
    ensures OfKey(xs, key, h) == []
  {
    if xs != [] {
      OfKeyNone(xs[1..], key, h);
    }
  }

  /** Every element of Insert(v, xs) is v or one of xs. */
  lemma {:induction false} InsertFrom<T>(v: T, xs: seq<T>, key: T -> nat)
    ensures forall w :: w in Insert(v, xs, key) ==> w == v || w in xs
  {
    if xs != [] && key(xs[0]) >= key(v) {
      InsertFrom(v, xs[1..], key);
      assert forall w :: w in xs[1..] ==> w in xs;
    }
  }

  lemma DescendingCons<T>(x: T, ys: seq<T>, key: T -> nat)
    requires Descending(ys, key)
    requires forall k :: 0 <= k < |ys| ==> key(ys[k]) <= key(x)
    ensures Descending([x] + ys, key)
  {
    var r := [x] + ys;
    forall i, j | 0 <= i < j < |r|
      ensures key(r[i]) >= key(r[j])
    {
      assert r[j] == ys[j - 1];
      if i > 0 {
        assert r[i] == ys[i - 1];
      }
    }
  }

  lemma {:induction false} InsertDescending<T>(v: T, xs: seq<T>, key: T -> nat)
    requires Descending(xs, key)
    ensures Descending(Insert(v, xs, key), key)
  {
    if xs == [] || key(xs[0]) < key(v) {
      DescendingCons(v, xs, key);
    } else {
      var rest := Insert(v, xs[1..], key);
      InsertDescending(v, xs[1..], key);
      InsertFrom(v, xs[1..], key);
      forall k | 0 <= k < |rest|
        ensures key(rest[k]) <= key(xs[0])
      {
        assert rest[k] in rest;
      }
      DescendingCons(xs[0], rest, key);
    }
  }

  /** The sort puts keys in non-increasing order. */
  lemma {:induction false} SortDescending<T>(xs: seq<T>, key: T -> nat)
    ensures Descending(SortBy(xs, key), key)
  {
    if xs != [] {
      SortDescending(xs[..|xs| - 1], key);
      InsertDescending(xs[|xs| - 1], SortBy(xs[..|xs| - 1], key), key);
    }
  }

  lemma {:induction false} InsertStable<T>(v: T, xs: seq<T>, key: T -> nat, h: nat)
    requires Descending(xs, key)
    ensures OfKey(Insert(v, xs, key), key, h) == OfKey(xs, key, h) + (if key(v) == h then [v] else [])
  {
    var mine: seq<T> := if key(v) == h then [v] else [];
    if xs == [] {
      OfKeyCons(v, [], key, h);
    } else if key(xs[0]) < key(v) {
      OfKeyCons(v, xs, key, h);
      if key(v) == h {
        OfKeyNone(xs, key, h);
      }
    } else {
      var head: seq<T> := if key(xs[0]) == h then [xs[0]] else [];
      calc {
        OfKey(Insert(v, xs, key), key, h);
        OfKey([xs[0]] + Insert(v, xs[1..], key), key, h);
        { OfKeyCons(xs[0], Insert(v, xs[1..], key), key, h); }
        head + OfKey(Insert(v, xs[1..], key), key, h);
        { InsertStable(v, xs[1..], key, h); }
        head + (OfKey(xs[1..], key, h) + mine);
        head + OfKey(xs[1..], key, h) + mine;
        { OfKeyCons(xs[0], xs[1..], key, h); assert [xs[0]] + xs[1..] == xs; }
        OfKey(xs, key, h) + mine;
      }
    }
  }

  lemma OfKeySingle<T>(v: T, key: T -> nat, h: nat)
    ensures OfKey([v], key, h) == (if key(v) == h then [v] else [])
  {
    assert [v][1..] == [];
  }

  /** Stability: for every key, the elements with that key come out in
      the order they went in. */
  lemma {:induction false} SortStable<T>(xs: seq<T>, key: T -> nat, h: nat)
    ensures OfKey(SortBy(xs, key), key, h) == OfKey(xs, key, h)
  {
    if xs != [] {
      var n := |xs| - 1;
      var init, last := xs[..n], xs[n];
      calc {
        OfKey(SortBy(xs, key), key, h);
        OfKey(Insert(last, SortBy(init, key), key), key, h);
        { SortDescending(init, key); InsertStable(last, SortBy(init, key), key, h); }
        OfKey(SortBy(init, key), key, h) + (if key(last) == h then [last] else []);
        { SortStable(init, key, h); OfKeySingle(last, key, h); }
        OfKey(init, key, h) + OfKey([last], key, h);
        { OfKeyAppend(init, [last], key, h); }
        OfKey(init + [last], key, h);
        { assert init + [last] == xs; }
        OfKey(xs, key, h);
      }
    }
  }

  lemma DistinctCons<T, Q>(x: T, ys: seq<T>, q: T -> Q)
    requires Distinct(ys, q)
    requires forall k :: 0 <= k < |ys| ==> q(ys[k]) != q(x)
    ensures Distinct([x] + ys, q)
  {
    var r := [x] + ys;
    forall i, j | 0 <= i < j < |r|
      ensures q(r[i]) != q(r[j])
    {
      assert r[j] == ys[j - 1];
      if i > 0 {
        assert r[i] == ys[i - 1];
      }
    }
  }

  lemma DistinctAppend<T, Q>(xs: seq<T>, v: T, q: T -> Q)
    requires Distinct(xs, q)
    requires forall k :: 0 <= k < |xs| ==> q(xs[k]) != q(v)
    ensures Distinct(xs + [v], q)
  {
    var r := xs + [v];
    forall i, j | 0 <= i < j < |r|
      ensures q(r[i]) != q(r[j])
    {
      assert r[i] == xs[i];
      if j < |xs| {
        assert r[j] == xs[j];
      }
    }
  }

  lemma {:induction false} InsertDistinct<T, Q>(v: T, xs: seq<T>, key: T -> nat, q: T -> Q)
    requires Distinct(xs, q)
    requires forall i :: 0 <= i < |xs| ==> q(xs[i]) != q(v)
    ensures Distinct(Insert(v, xs, key), q)
  {
    if xs == [] || key(xs[0]) < key(v) {
      DistinctCons(v, xs, q);
    } else {
      var tail := xs[1..];
      var rest := Insert(v, tail, key);
      assert Distinct(tail, q) by {
        forall i, j | 0 <= i < j < |tail|
          ensures q(tail[i]) != q(tail[j])
        {
          assert tail[i] == xs[i + 1] && tail[j] == xs[j + 1];
        }
      }
      InsertDistinct(v, tail, key, q);
      InsertFrom(v, tail, key);
      forall k | 0 <= k < |rest|
        ensures q(rest[k]) != q(xs[0])
      {
        assert rest[k] in rest;
        if rest[k] != v {
          var m :| 0 <= m < |tail| && tail[m] == rest[k];
          assert xs[m + 1] == rest[k];
        }
      }
      DistinctCons(xs[0], rest, q);
    }
  }

  /** Sorting cannot make two elements agree on q. */
  lemma {:induction false} SortDistinct<T, Q>(xs: seq<T>, key: T -> nat, q: T -> Q)
    requires Distinct(xs, q)
    ensures Distinct(SortBy(xs, key), q)
  {
    if xs != [] {
      var n := |xs| - 1;
      var sorted := SortBy(xs[..n], key);
      SortDistinct(xs[..n], key, q);
      forall i | 0 <= i < |sorted|
        ensures q(sorted[i]) != q(xs[n])
      {
        assert sorted[i] in multiset(sorted);
        assert sorted[i] in xs[..n];
      }
      InsertDistinct(xs[n], sorted, key, q);
    }
  }
}
