/** `xs.sort((a, b) => key(b) - key(a))`: JavaScript's sort is stable, so
    this orders by non-increasing key and keeps the input order among equal
    keys. Modelled as an insertion sort on sequences. */
module Sorting {
  import opened Seqs

  predicate SortedDesc<T>(xs: seq<T>, key: T -> int) {
    forall i, j :: 0 <= i < j < |xs| ==> key(xs[i]) >= key(xs[j])
  }

  /** The elements whose key is `c`. */
  function KeyIs<T>(key: T -> int, c: int): T -> bool {
    x => key(x) == c
  }

  /** Puts `x` in front of the first element whose key is not greater:
      `x` came earlier in the input than all of `xs`, so it goes before the
      elements with an equal key. */
  function Insert<T(!new)>(x: T, xs: seq<T>, key: T -> int): (r: seq<T>)
    ensures |r| == |xs| + 1
    ensures multiset(r) == multiset(xs) + multiset{x}
  {
    if xs == [] || key(x) >= key(xs[0]) then [x] + xs
    else
      assert xs == [xs[0]] + xs[1..];
      [xs[0]] + Insert(x, xs[1..], key)
  }

  /** Every key in `xs` is at most `b`. */
  predicate KeysAtMost<T>(xs: seq<T>, key: T -> int, b: int) {
    forall i :: 0 <= i < |xs| ==> key(xs[i]) <= b
  }

  lemma {:induction false} InsertKeysAtMost<T(!new)>(x: T, xs: seq<T>, key: T -> int, b: int)
    requires KeysAtMost(xs, key, b) && key(x) <= b
    ensures KeysAtMost(Insert(x, xs, key), key, b)
  {
    if xs != [] && key(x) < key(xs[0]) {
      var rest := Insert(x, xs[1..], key);
      InsertKeysAtMost(x, xs[1..], key, b);
      assert Insert(x, xs, key) == [xs[0]] + rest;
    }
  }

  /** Inserting into a sorted sequence keeps it sorted. */
  lemma {:induction false} InsertSorted<T(!new)>(x: T, xs: seq<T>, key: T -> int)
    requires SortedDesc(xs, key)
    ensures SortedDesc(Insert(x, xs, key), key)
  {
    if xs != [] && key(x) < key(xs[0]) {
      var rest := Insert(x, xs[1..], key);
      InsertSorted(x, xs[1..], key);
      InsertKeysAtMost(x, xs[1..], key, key(xs[0]));
      SortedCons(xs[0], rest, key);
    } else {
      SortedCons(x, xs, key);
    }
  }

  /** A sorted sequence stays sorted behind a head whose key bounds it. */
  lemma SortedCons<T>(h: T, rest: seq<T>, key: T -> int)
    requires SortedDesc(rest, key) && KeysAtMost(rest, key, key(h))
    ensures SortedDesc([h] + rest, key)
  {
    var r := [h] + rest;
    forall i, j | 0 <= i < j < |r| ensures key(r[i]) >= key(r[j]) {
      assert r[j] == rest[j - 1];
      if i > 0 {
        assert r[i] == rest[i - 1];
      }
    }
  }

  function SortDesc<T(!new)>(xs: seq<T>, key: T -> int): (r: seq<T>)
    ensures |r| == |xs|
    ensures multiset(r) == multiset(xs)
    ensures SortedDesc(r, key)
  {
    if xs == [] then []
    else
      assert xs == [xs[0]] + xs[1..];
      InsertSorted(xs[0], SortDesc(xs[1..], key), key);
      Insert(xs[0], SortDesc(xs[1..], key), key)
  }

  /** Inserting `x` adds it in front of the elements with its key and
      leaves the order of every other key's elements alone. */
  lemma {:induction false} InsertStable<T(!new)>(x: T, xs: seq<T>, key: T -> int, c: int)
    ensures Filter(Insert(x, xs, key), KeyIs(key, c)) ==
              (if key(x) == c then [x] else []) + Filter(xs, KeyIs(key, c))
  {
    var keep := KeyIs(key, c);
    if xs != [] && key(x) < key(xs[0]) {
      var rest := Insert(x, xs[1..], key);
      InsertStable(x, xs[1..], key, c);
      assert ([xs[0]] + rest)[0] == xs[0] && ([xs[0]] + rest)[1..] == rest;
    } else {
      assert ([x] + xs)[0] == x && ([x] + xs)[1..] == xs;
    }
  }

  /** The sort is stable: for every key, the elements with that key come
      out in their input order. */
  lemma {:induction false} SortStable<T(!new)>(xs: seq<T>, key: T -> int, c: int)
    ensures Filter(SortDesc(xs, key), KeyIs(key, c)) == Filter(xs, KeyIs(key, c))
  {
    if xs != [] {
      SortStable(xs[1..], key, c);
      InsertStable(xs[0], SortDesc(xs[1..], key), key, c);
    }
  }
}
