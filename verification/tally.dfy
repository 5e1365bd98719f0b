/** Per-key totals in insertion order: the `Map` of category counts in
    app/lib/stats/build-time-stats.ts and the per-article reaction record
    in app/lib/stats/server-stats.ts. A key takes its place when it is
    first set; setting it again keeps that place. */
module Tally {
  import opened Seqs

  datatype Entry<K> = Entry(key: K, total: int)

  function Keys<K>(es: seq<Entry<K>>): (ks: seq<K>)
    ensures |ks| == |es| && forall i :: 0 <= i < |es| ==> ks[i] == es[i].key
  {
    if es == [] then [] else [es[0].key] + Keys(es[1..])
  }

  /** The total stored under `k`, or 0 when there is none: `get(k) || 0`. */
  function Lookup<K(==)>(es: seq<Entry<K>>, k: K): int {
    if es == [] then 0 else if es[0].key == k then es[0].total else Lookup(es[1..], k)
  }

  /** The sum of all totals. */
  function Total<K>(es: seq<Entry<K>>): int {
    if es == [] then 0 else es[0].total + Total(es[1..])
  }

  /** `m.set(k, (m.get(k) || 0) + v)`: the entry of `k` grows in place, or
      a new entry goes at the end. */
  function Add<K(==)>(es: seq<Entry<K>>, k: K, v: int): (r: seq<Entry<K>>)
    ensures Keys(r) == if k in Keys(es) then Keys(es) else Keys(es) + [k]
    ensures Total(r) == Total(es) + v
  {
    if es == [] then [Entry(k, v)]
    else if es[0].key == k then
      assert Keys(es) == [k] + Keys(es[1..]);
      [Entry(k, es[0].total + v)] + es[1..]
    else
      var rest := Add(es[1..], k, v);
      assert Keys(es) == [es[0].key] + Keys(es[1..]);
      assert ([es[0]] + rest)[1..] == rest;
      [es[0]] + rest
  }

  lemma {:induction false} AddLookup<K>(es: seq<Entry<K>>, k: K, v: int, k': K)
    ensures Lookup(Add(es, k, v), k') == Lookup(es, k') + (if k' == k then v else 0)
  {
    if es != [] && es[0].key != k {
      AddLookup(es[1..], k, v, k');
    }
  }

  /** `xs.forEach(x => add(key(x), val(x)))` on a tally that holds `acc`. */
  function TallyFrom<T, K(==)>(acc: seq<Entry<K>>, xs: seq<T>, key: T -> K, val: T -> int): seq<Entry<K>>
    decreases |xs|
  {
    if xs == [] then acc else TallyFrom(Add(acc, key(xs[0]), val(xs[0])), xs[1..], key, val)
  }

  function TallyAll<T, K(==)>(xs: seq<T>, key: T -> K, val: T -> int): seq<Entry<K>> {
    TallyFrom([], xs, key, val)
  }

  /** `xs.map(f)`: the keys or the values of a list of records. */
  function Project<T, U>(xs: seq<T>, f: T -> U): (ys: seq<U>)
    ensures |ys| == |xs| && forall i :: 0 <= i < |xs| ==> ys[i] == f(xs[i])
  {
    if xs == [] then [] else [f(xs[0])] + Project(xs[1..], f)
  }

  lemma SumProjectAppend<T>(a: seq<T>, b: seq<T>, f: T -> int)
    ensures Sum(Project(a + b, f)) == Sum(Project(a, f)) + Sum(Project(b, f))
  {
    assert Project(a + b, f) == Project(a, f) + Project(b, f);
    SumAppend(Project(a, f), Project(b, f));
  }

  /** Taking out the element at `i` takes one copy of it out of the
      multiset. */
  lemma RemoveAt<T>(b: seq<T>, i: nat)
    requires i < |b|
    ensures multiset(b[..i] + b[i + 1..]) == multiset(b) - multiset{b[i]}
  {
    assert b == b[..i] + [b[i]] + b[i + 1..];
    assert multiset(b) == multiset(b[..i]) + multiset{b[i]} + multiset(b[i + 1..]);
  }

  /** Taking the same element out of two permutations of each other leaves
      permutations of each other. */
  lemma PermutedTails<T>(a: seq<T>, b: seq<T>, i: nat)
    requires multiset(a) == multiset(b) && a != [] && i < |b| && b[i] == a[0]
    ensures multiset(a[1..]) == multiset(b[..i] + b[i + 1..])
  {
    RemoveAt(b, i);
    RemoveAt(a, 0);
    assert a[..0] + a[1..] == a[1..];
  }

  lemma SumProjectSingle<T>(x: T, f: T -> int)
    ensures Sum(Project([x], f)) == f(x)
  {
    assert Project([x], f) == [f(x)];
    assert [f(x)][1..] == [];
  }

  /** The sum is the removed element's value plus the sum of the rest. */
  lemma SumProjectRemove<T>(b: seq<T>, i: nat, f: T -> int)
    requires i < |b|
    ensures Sum(Project(b, f)) == f(b[i]) + Sum(Project(b[..i] + b[i + 1..], f))
  {
    assert b == b[..i] + ([b[i]] + b[i + 1..]);
    SumProjectAppend(b[..i], [b[i]] + b[i + 1..], f);
    SumProjectAppend([b[i]], b[i + 1..], f);
    SumProjectSingle(b[i], f);
    SumProjectAppend(b[..i], b[i + 1..], f);
  }

  /** A sum over records does not depend on their order. */
  lemma {:induction false} SumProjectPermuted<T>(a: seq<T>, b: seq<T>, f: T -> int)
    requires multiset(a) == multiset(b)
    ensures Sum(Project(a, f)) == Sum(Project(b, f))
    decreases |a|
  {
    if a == [] {
      assert |multiset(b)| == 0;
    } else {
      assert a[0] in multiset(b);
      var i :| 0 <= i < |b| && b[i] == a[0];
      PermutedTails(a, b, i);
      SumProjectPermuted(a[1..], b[..i] + b[i + 1..], f);
      SumProjectRemove(b, i, f);
      SumProjectRemove(a, 0, f);
    }
  }

  /** The reference total of `k`: the sum of `val(x)` over the `x` whose
      key is `k`. */
  function SumOf<T, K(==)>(xs: seq<T>, key: T -> K, val: T -> int, k: K): int {
    if xs == [] then 0 else (if key(xs[0]) == k then val(xs[0]) else 0) + SumOf(xs[1..], key, val, k)
  }

  lemma {:induction false} TallyKeys<T, K(!new)>(acc: seq<Entry<K>>, xs: seq<T>, key: T -> K, val: T -> int)
    ensures Keys(TallyFrom(acc, xs, key, val)) == AddAll(Keys(acc), Project(xs, key))
    decreases |xs|
  {
    if xs != [] {
      var ks := Project(xs, key);
      TallyKeys(Add(acc, key(xs[0]), val(xs[0])), xs[1..], key, val);
      assert ks[0] == key(xs[0]) && ks[1..] == Project(xs[1..], key);
    }
  }

  lemma {:induction false} TallyLookup<T, K>(acc: seq<Entry<K>>, xs: seq<T>, key: T -> K, val: T -> int, k: K)
    ensures Lookup(TallyFrom(acc, xs, key, val), k) == Lookup(acc, k) + SumOf(xs, key, val, k)
    decreases |xs|
  {
    if xs != [] {
      TallyLookup(Add(acc, key(xs[0]), val(xs[0])), xs[1..], key, val, k);
      AddLookup(acc, key(xs[0]), val(xs[0]), k);
    }
  }

  lemma {:induction false} TallyTotal<T, K>(acc: seq<Entry<K>>, xs: seq<T>, key: T -> K, val: T -> int)
    ensures Total(TallyFrom(acc, xs, key, val)) == Total(acc) + Sum(Project(xs, val))
    decreases |xs|
  {
    if xs != [] {
      TallyTotal(Add(acc, key(xs[0]), val(xs[0])), xs[1..], key, val);
      assert Project(xs, val)[1..] == Project(xs[1..], val);
    }
  }

  /** With distinct keys, every entry's total is what `Lookup` finds. */
  lemma {:induction false} LookupEntry<K>(es: seq<Entry<K>>, i: nat)
    requires NoDuplicates(Keys(es)) && i < |es|
    ensures Lookup(es, es[i].key) == es[i].total
  {
    if i > 0 {
      assert Keys(es[1..]) == Keys(es)[1..];
      LookupEntry(es[1..], i - 1);
      assert Keys(es)[0] != Keys(es)[i];
    }
  }

  /** The tally of `xs`: one entry per distinct key, in order of first
      occurrence, holding the sum of the values with that key; all the
      totals add up to the sum of all the values. */
  lemma TallyAllSpec<T, K(!new)>(xs: seq<T>, key: T -> K, val: T -> int)
    ensures Keys(TallyAll(xs, key, val)) == Dedupe(Project(xs, key))
    ensures forall i :: 0 <= i < |TallyAll(xs, key, val)| ==>
              TallyAll(xs, key, val)[i].total == SumOf(xs, key, val, TallyAll(xs, key, val)[i].key)
    ensures Total(TallyAll(xs, key, val)) == Sum(Project(xs, val))
  {
    var r := TallyAll(xs, key, val);
    TallyKeys([], xs, key, val);
    TallyTotal([], xs, key, val);
    forall i | 0 <= i < |r| ensures r[i].total == SumOf(xs, key, val, r[i].key) {
      LookupEntry(r, i);
      TallyLookup([], xs, key, val, r[i].key);
    }
  }

  /** Reordering entries keeps their keys distinct. */
  lemma DistinctKeysPermuted<K>(a: seq<Entry<K>>, b: seq<Entry<K>>)
    requires multiset(a) == multiset(b) && NoDuplicates(Keys(a))
    ensures NoDuplicates(Keys(b))
  {
    forall i, j | 0 <= i < j < |b| ensures b[i].key != b[j].key {
      if b[i].key == b[j].key {
        assert b[i] in multiset(a) && b[j] in multiset(a);
        var p :| 0 <= p < |a| && a[p] == b[i];
        var q :| 0 <= q < |a| && a[q] == b[j];
        assert Keys(a)[p] == Keys(a)[q];
        AtMostOnce(a, b[i]);
        RepeatedTwice(b, i, j);
        assert false;
      }
    }
  }

  /** Reordering entries keeps their keys. */
  lemma KeyPermuted<K>(a: seq<Entry<K>>, b: seq<Entry<K>>, x: K)
    requires multiset(a) == multiset(b) && x in Keys(a)
    ensures x in Keys(b)
  {
    var j :| 0 <= j < |a| && Keys(a)[j] == x;
    assert a[j] in multiset(b);
    var i :| 0 <= i < |b| && b[i] == a[j];
    assert Keys(b)[i] == x;
  }

  /** With distinct keys, no entry occurs twice. */
  lemma {:induction false} AtMostOnce<K>(a: seq<Entry<K>>, e: Entry<K>)
    requires NoDuplicates(Keys(a))
    ensures multiset(a)[e] <= 1
  {
    if a != [] {
      assert a == [a[0]] + a[1..];
      assert NoDuplicates(Keys(a[1..])) by {
        assert Keys(a[1..]) == Keys(a)[1..];
      }
      AtMostOnce(a[1..], e);
      if a[0] == e {
        assert e !in a[1..] by {
          forall k | 0 <= k < |a[1..]| ensures a[1..][k] != e {
            assert Keys(a)[0] != Keys(a)[k + 1];
          }
        }
      }
    }
  }

  lemma RepeatedTwice<T>(s: seq<T>, i: nat, j: nat)
    requires i < j < |s| && s[i] == s[j]
    ensures multiset(s)[s[i]] >= 2
  {
    assert s == s[..j] + [s[j]] + s[j + 1..];
    assert s[i] in s[..j];
  }
}
