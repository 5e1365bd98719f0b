/** Sequence helpers for the JavaScript collection idioms the source uses:
    insertion-ordered `Set` building, `slice`, fixed-size chunking, sums. */
module Seqs {
  import opened Arith
  import opened Options

  predicate NoDuplicates<T(==)>(s: seq<T>) {
    forall i, j :: 0 <= i < j < |s| ==> s[i] != s[j]
  }

  /** The present values of a list of options, in order. */
  function Values<T>(xs: seq<Option<T>>): (r: seq<T>)
    ensures |r| <= |xs|
  {
    if xs == [] then []
    else (if xs[0].Some? then [xs[0].value] else []) + Values(xs[1..])
  }

  /** How many of a list of options are absent. */
  function Nones<T>(xs: seq<Option<T>>): (n: nat)
    ensures n <= |xs|
  {
    if xs == [] then 0 else (if xs[0].None? then 1 else 0) + Nones(xs[1..])
  }

  /** Every absent entry drops out of the values, and nothing else does. */
  lemma {:induction false} ValuesCount<T>(xs: seq<Option<T>>)
    ensures |Values(xs)| == |xs| - Nones(xs)
  {
    if xs != [] {
      ValuesCount(xs[1..]);
    }
  }

  /** The values are exactly the contents of the present entries. */
  lemma {:induction false} ValuesMembers<T>(xs: seq<Option<T>>, x: T)
    ensures x in Values(xs) <==> exists k :: 0 <= k < |xs| && xs[k] == Some(x)
  {
    if xs != [] {
      ValuesMembers(xs[1..], x);
      if x in Values(xs[1..]) {
        var k :| 0 <= k < |xs[1..]| && xs[1..][k] == Some(x);
        assert xs[k + 1] == Some(x);
      }
      if exists k :: 0 <= k < |xs| && xs[k] == Some(x) {
        var k :| 0 <= k < |xs| && xs[k] == Some(x);
        if k > 0 {
          assert xs[1..][k - 1] == Some(x);
        }
      }
    }
  }

  /** A present entry's value sits among the values at its index minus the
      absent entries before it. */
  lemma {:induction false} ValuesIndex<T>(xs: seq<Option<T>>, j: nat)
    requires j < |xs| && xs[j].Some?
    ensures j - Nones(xs[..j]) < |Values(xs)|
    ensures Values(xs)[j - Nones(xs[..j])] == xs[j].value
  {
    if j == 0 {
      assert xs[..0] == [];
    } else {
      ValuesIndex(xs[1..], j - 1);
      PrefixTail(xs, j);
    }
  }

  /** Counting the absent entries of a prefix one entry longer. */
  lemma {:induction false} NonesLast<T>(xs: seq<Option<T>>, n: nat)
    requires 0 < n <= |xs|
    ensures Nones(xs[..n]) == Nones(xs[..n - 1]) + (if xs[n - 1].None? then 1 else 0)
  {
    if n == 1 {
      assert xs[..0] == [];
      assert xs[..1][1..] == [];
    } else {
      PrefixTail(xs, n);
      PrefixTail(xs, n - 1);
      NonesLast(xs[1..], n - 1);
    }
  }

  /** A present entry's index among the values is smaller than that of any
      later entry: the values keep the order of their entries. */
  lemma {:induction false} ValuesOrdered<T>(xs: seq<Option<T>>, i: nat, j: nat)
    requires i < j <= |xs| && xs[i].Some?
    ensures i - Nones(xs[..i]) < j - Nones(xs[..j])
    decreases j - i
  {
    NonesLast(xs, i + 1);
    if i + 1 < j {
      NonesGrowth(xs, i + 1, j);
    }
  }

  /** A longer prefix has at most as many more absent entries as it has
      more entries. */
  lemma {:induction false} NonesGrowth<T>(xs: seq<Option<T>>, i: nat, j: nat)
    requires i <= j <= |xs|
    ensures Nones(xs[..j]) <= Nones(xs[..i]) + (j - i)
    decreases j - i
  {
    if i < j {
      NonesLast(xs, j);
      NonesGrowth(xs, i, j - 1);
    }
  }

  /** The tail of a non-empty prefix is a prefix of the tail. */
  lemma PrefixTail<T>(s: seq<T>, n: nat)
    requires 0 < n <= |s|
    ensures s[..n][0] == s[0] && s[..n][1..] == s[1..][..n - 1]
  {
  }

  /** `xs` is `ys` with some elements left out: the order is kept. */
  predicate Subsequence<T(==)>(xs: seq<T>, ys: seq<T>)
    decreases |ys|
  {
    || xs == []
    || (&& ys != []
        && ((xs[0] == ys[0] && Subsequence(xs[1..], ys[1..])) || Subsequence(xs, ys[1..])))
  }

  /** Adding the elements of `xs` one by one to a JavaScript `Set` whose
      current contents, in insertion order, are `acc`; the result is the new
      contents in insertion order. */
  function AddAll<T(==,!new)>(acc: seq<T>, xs: seq<T>): (r: seq<T>)
    ensures |acc| <= |r| && r[..|acc|] == acc
    ensures forall x :: x in r <==> x in acc || x in xs
    ensures NoDuplicates(acc) ==> NoDuplicates(r)
    decreases |xs|
  {
    if xs == [] then acc
    else if xs[0] in acc then AddAll(acc, xs[1..])
    else
      var acc' := acc + [xs[0]];
      assert acc'[..|acc|] == acc;
      var r := AddAll(acc', xs[1..]);
      assert r[..|acc|] == r[..|acc'|][..|acc|];
      r
  }

  /** `[...new Set(xs)]`: the first occurrence of every element, in order. */
  function Dedupe<T(==,!new)>(xs: seq<T>): (r: seq<T>)
    ensures NoDuplicates(r)
    ensures forall x :: x in r <==> x in xs
    ensures |r| <= |xs|
  {
    var r := AddAll([], xs);
    DedupeLength(xs);
    r
  }

  lemma {:induction false} AddAllLength<T(!new)>(acc: seq<T>, xs: seq<T>)
    ensures |AddAll(acc, xs)| <= |acc| + |xs|
    decreases |xs|
  {
    if xs != [] {
      if xs[0] in acc {
        AddAllLength(acc, xs[1..]);
      } else {
        AddAllLength(acc + [xs[0]], xs[1..]);
      }
    }
  }

  lemma DedupeLength<T(!new)>(xs: seq<T>)
    ensures |AddAll([], xs)| <= |xs|
  {
    AddAllLength([], xs);
  }

  /** `s.slice(from, to)` for non-negative bounds: out-of-range bounds are
      clamped to the length. */
  function Slice<T>(s: seq<T>, from: nat, to: nat): (r: seq<T>)
    ensures |r| == (if to <= |s| then to else |s|) - (if from <= |s| then from else |s|)
                   || (|r| == 0 && from >= to)
    ensures forall k :: 0 <= k < |r| ==> from + k < |s| && r[k] == s[from + k]
  {
    var hi := if to <= |s| then to else |s|;
    var lo := if from <= hi then from else hi;
    s[lo..hi]
  }

  function Flatten<T>(ss: seq<seq<T>>): seq<T> {
    if ss == [] then [] else ss[0] + Flatten(ss[1..])
  }

  /** The batches `s.slice(i, i + size)` for `i = 0, size, 2·size, …`. */
  function Chunks<T>(s: seq<T>, size: nat): (cs: seq<seq<T>>)
    requires size > 0
    ensures forall k :: 0 <= k < |cs| ==> 1 <= |cs[k]| <= size
    ensures forall k :: 0 <= k < |cs| - 1 ==> |cs[k]| == size
    decreases |s|
  {
    if s == [] then []
    else if |s| <= size then [s]
    else [s[..size]] + Chunks(s[size..], size)
  }

  /** The batches, put back together in order, are the whole input. */
  lemma {:induction false} ChunksFlatten<T>(s: seq<T>, size: nat)
    requires size > 0
    ensures Flatten(Chunks(s, size)) == s
    decreases |s|
  {
    var cs := Chunks(s, size);
    if s == [] {
    } else if |s| <= size {
      assert Flatten([s]) == s + Flatten([]);
    } else {
      ChunksFlatten(s[size..], size);
      assert cs[1..] == Chunks(s[size..], size);
      assert s[..size] + s[size..] == s;
    }
  }

  /** There are `ceil(|s| / size)` batches. */
  lemma {:induction false} ChunksCount<T>(s: seq<T>, size: nat)
    requires size > 0
    ensures |Chunks(s, size)| == (|s| + size - 1) / size
    decreases |s|
  {
    if s == [] {
      DivUnique(size - 1, size, 0, size - 1);
    } else if |s| <= size {
      DivUnique(|s| + size - 1, size, 1, |s| - 1);
    } else {
      ChunksCount(s[size..], size);
      DivStep(|s| - 1, size);
    }
  }

  /** The elements satisfying `keep`, in order. */
  function Filter<T>(s: seq<T>, keep: T -> bool): (r: seq<T>)
    ensures |r| <= |s|
    ensures forall i :: 0 <= i < |r| ==> keep(r[i])
    ensures (forall i :: 0 <= i < |s| ==> keep(s[i])) ==> r == s
  {
    if s == [] then []
    else (if keep(s[0]) then [s[0]] else []) + Filter(s[1..], keep)
  }

  /** Exactly the elements satisfying `keep` are kept. */
  lemma {:induction false} FilterMembers<T>(s: seq<T>, keep: T -> bool)
    ensures forall x :: x in Filter(s, keep) <==> x in s && keep(x)
  {
    if s != [] {
      FilterMembers(s[1..], keep);
      assert s == [s[0]] + s[1..];
    }
  }

  /** Filtering keeps a sequence free of duplicates. */
  lemma {:induction false} FilterNoDuplicates<T>(s: seq<T>, keep: T -> bool)
    requires NoDuplicates(s)
    ensures NoDuplicates(Filter(s, keep))
  {
    if s != [] {
      FilterNoDuplicates(s[1..], keep);
      FilterMembers(s[1..], keep);
      assert s[0] !in s[1..] by {
        assert s == [s[0]] + s[1..];
      }
    }
  }

  lemma {:induction false} FilterAppend<T>(a: seq<T>, b: seq<T>, keep: T -> bool)
    ensures Filter(a + b, keep) == Filter(a, keep) + Filter(b, keep)
  {
    if a == [] {
      assert a + b == b;
    } else {
      assert (a + b)[0] == a[0] && (a + b)[1..] == a[1..] + b;
      FilterAppend(a[1..], b, keep);
    }
  }

  function Sum(xs: seq<int>): int {
    if xs == [] then 0 else xs[0] + Sum(xs[1..])
  }

  lemma {:induction false} SumAppend(a: seq<int>, b: seq<int>)
    ensures Sum(a + b) == Sum(a) + Sum(b)
  {
    if a != [] {
      assert (a + b)[0] == a[0];
      assert (a + b)[1..] == a[1..] + b;
      SumAppend(a[1..], b);
    } else {
      assert a + b == b;
    }
  }

  lemma {:induction false} SumNonNegative(xs: seq<int>)
    requires forall i :: 0 <= i < |xs| ==> xs[i] >= 0
    ensures Sum(xs) >= 0
  {
    if xs != [] {
      SumNonNegative(xs[1..]);
    }
  }

  /** How many elements of `xs` equal `x`. */
  function Count<T(==)>(xs: seq<T>, x: T): nat {
    if xs == [] then 0 else (if xs[0] == x then 1 else 0) + Count(xs[1..], x)
  }

  // -------------------------------------------------------------------
  // Keyed writes into a map, one element at a time

  /** Writing `val(x)` under `key(x)` for each `x` of `xs` in order. */
  function WriteAll<X, K, V>(m: map<K, V>, xs: seq<X>, key: X -> K, val: X -> V): map<K, V>
    decreases |xs|
  {
    if xs == [] then m else WriteAll(m[key(xs[0]) := val(xs[0])], xs[1..], key, val)
  }

  /** The keys of a list. */
  function KeySet<X(==), K>(xs: seq<X>, key: X -> K): set<K> {
    set x | x in xs :: key(x)
  }

  /** No later element has the key of `xs[j]`. */
  predicate LastOfKey<X, K(==)>(xs: seq<X>, j: nat, key: X -> K)
    requires j < |xs|
  {
    forall j' :: j < j' < |xs| ==> key(xs[j']) != key(xs[j])
  }

  lemma KeySetCons<X, K>(xs: seq<X>, key: X -> K)
    requires xs != []
    ensures KeySet(xs, key) == {key(xs[0])} + KeySet(xs[1..], key)
  {
    assert forall x :: x in xs <==> x == xs[0] || x in xs[1..] by {
      assert xs == [xs[0]] + xs[1..];
    }
  }

  /** The written map has the old keys and the keys of the list. */
  lemma {:induction false} WriteAllKeys<X, K, V>(m: map<K, V>, xs: seq<X>, key: X -> K, val: X -> V)
    ensures WriteAll(m, xs, key, val).Keys == m.Keys + KeySet(xs, key)
    decreases |xs|
  {
    if xs != [] {
      WriteAllKeys(m[key(xs[0]) := val(xs[0])], xs[1..], key, val);
      KeySetCons(xs, key);
    }
  }

  /** A key no element has keeps its value. */
  lemma {:induction false} WriteAllUnchanged<X, K, V>(m: map<K, V>, xs: seq<X>, key: X -> K,
                                                      val: X -> V, k: K)
    requires k in m && k !in KeySet(xs, key)
    ensures k in WriteAll(m, xs, key, val) && WriteAll(m, xs, key, val)[k] == m[k]
    decreases |xs|
  {
    if xs != [] {
      KeySetCons(xs, key);
      WriteAllUnchanged(m[key(xs[0]) := val(xs[0])], xs[1..], key, val, k);
    }
  }

  lemma LastOfKeyHead<X, K>(xs: seq<X>, key: X -> K)
    requires xs != [] && LastOfKey(xs, 0, key)
    ensures key(xs[0]) !in KeySet(xs[1..], key)
  {
    forall x | x in xs[1..] ensures key(x) != key(xs[0]) {
      var m :| 0 <= m < |xs| - 1 && xs[1..][m] == x;
      assert xs[m + 1] == x;
    }
  }

  lemma LastOfKeyTail<X, K>(xs: seq<X>, j: nat, key: X -> K)
    requires 0 < j < |xs| && LastOfKey(xs, j, key)
    ensures LastOfKey(xs[1..], j - 1, key)
  {
    var rest := xs[1..];
    forall j' | j - 1 < j' < |rest| ensures key(rest[j']) != key(rest[j - 1]) {
      assert rest[j'] == xs[j' + 1];
    }
  }

  /** The key of the last element with that key holds that element's value. */
  lemma {:induction false} WriteAllLast<X, K, V>(m: map<K, V>, xs: seq<X>, key: X -> K,
                                                 val: X -> V, j: nat)
    requires j < |xs| && LastOfKey(xs, j, key)
    ensures key(xs[j]) in WriteAll(m, xs, key, val)
    ensures WriteAll(m, xs, key, val)[key(xs[j])] == val(xs[j])
    decreases |xs|
  {
    var next := m[key(xs[0]) := val(xs[0])];
    if j == 0 {
      LastOfKeyHead(xs, key);
      WriteAllUnchanged(next, xs[1..], key, val, key(xs[0]));
    } else {
      LastOfKeyTail(xs, j, key);
      WriteAllLast(next, xs[1..], key, val, j - 1);
    }
  }

  /** Writing a list in two parts is writing it in one go. */
  lemma {:induction false} WriteAllAppend<X, K, V>(m: map<K, V>, a: seq<X>, b: seq<X>,
                                                   key: X -> K, val: X -> V)
    ensures WriteAll(m, a + b, key, val) == WriteAll(WriteAll(m, a, key, val), b, key, val)
    decreases |a|
  {
    if a == [] {
      assert a + b == b;
    } else {
      assert (a + b)[0] == a[0] && (a + b)[1..] == a[1..] + b;
      WriteAllAppend(m[key(a[0]) := val(a[0])], a[1..], b, key, val);
    }
  }

  /** The elements of `f(x)` for every `x` of `xs`, added in turn to one
      insertion-ordered set. */
  function AddEach<T, U(==,!new)>(xs: seq<T>, f: T -> seq<U>): (r: seq<U>)
    ensures NoDuplicates(r)
    ensures forall u :: u in r <==> exists k :: 0 <= k < |xs| && u in f(xs[k])
  {
    if xs == [] then []
    else
      var n := |xs| - 1;
      var acc := AddEach(xs[..n], f);
      var r := AddAll(acc, f(xs[n]));
      assert forall u :: u in r <==> exists k :: 0 <= k < |xs| && u in f(xs[k]) by {
        forall u ensures u in r <==> exists k :: 0 <= k < |xs| && u in f(xs[k]) {
          if u in acc {
            var k :| 0 <= k < n && u in f(xs[..n][k]);
            assert xs[..n][k] == xs[k];
          }
          if exists k :: 0 <= k < |xs| && u in f(xs[k]) {
            var k :| 0 <= k < |xs| && u in f(xs[k]);
            if k < n {
              assert xs[..n][k] == xs[k];
            }
          }
        }
      }
      r
  }
}
