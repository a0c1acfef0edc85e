/**
 * Python dictionaries as the scripts use them: maps that remember the order
 * in which keys were first inserted.
 */
module Dicts {
  import opened Seqs

  /** keys: insertion order; vals: the mapping itself. */
  datatype Dict<K, V> = Dict(keys: seq<K>, vals: map<K, V>)

  /** Every key is listed once, and exactly the mapped keys are listed. */
  ghost predicate Valid<K(!new), V>(d: Dict<K, V>) {
    Distinct(d.keys) && forall k :: k in d.vals <==> k in d.keys
  }

  function Empty<K(!new), V>(): (d: Dict<K, V>)
    ensures Valid(d) && d.keys == []
  {
    Dict([], map[])
  }

  /** The literal `{k: v}`. */
  function Single<K(!new), V>(k: K, v: V): (d: Dict<K, V>)
    ensures Valid(d) && d.keys == [k] && d.vals.Keys == {k} && d.vals[k] == v
  {
    Dict([k], map[k := v])
  }

  /** `d[k] = v`: a new key goes to the end, an existing key keeps its place. */
  function Put<K(!new), V>(d: Dict<K, V>, k: K, v: V): (r: Dict<K, V>)
    requires Valid(d)
    ensures Valid(r)
    ensures r.vals == d.vals[k := v]
    ensures r.keys == if k in d.vals then d.keys else d.keys + [k]
  {
    if k in d.vals then Dict(d.keys, d.vals[k := v]) else Dict(d.keys + [k], d.vals[k := v])
  }

  /** Put every key of ks with its value in m, in the order of ks. */
  function PutKeys<K(!new), V>(d: Dict<K, V>, ks: seq<K>, m: map<K, V>): (r: Dict<K, V>)
    requires Valid(d) && forall k :: k in ks ==> k in m
    ensures Valid(r)
    decreases |ks|
  {
    if ks == [] then d else PutKeys(Put(d, ks[0], m[ks[0]]), ks[1..], m)
  }

  /** `{**a, **b}`: a's entries in a's order, then b's, b's values winning. */
  function Union<K(!new), V>(a: Dict<K, V>, b: Dict<K, V>): (r: Dict<K, V>)
    requires Valid(a) && Valid(b)
    ensures Valid(r)
  {
    PutKeys(a, b.keys, b.vals)
  }

  /** Merging a single-key result is putting that one entry. */
  lemma UnionSingle<K(!new), V>(a: Dict<K, V>, k: K, v: V)
    requires Valid(a)
    ensures Union(a, Single(k, v)) == Put(a, k, v)
  {
    var s := Single(k, v);
    assert s.keys[0] == k && s.keys[1..] == [];
    assert PutKeys(a, s.keys, s.vals) == PutKeys(Put(a, k, v), [], s.vals);
  }

  /**
   * `{**a, **b}` maps every key of b to b's value and every other key of a to
   * a's value, and a's keys keep their places at the front.
   */
  lemma UnionContents<K(!new), V>(a: Dict<K, V>, b: Dict<K, V>)
    requires Valid(a) && Valid(b)
    ensures Union(a, b).vals == a.vals + b.vals
    ensures a.keys <= Union(a, b).keys
  {
    var r := Union(a, b);
    forall x
      ensures x in r.vals <==> x in a.vals + b.vals
      ensures x in r.vals ==> r.vals[x] == (a.vals + b.vals)[x]
    {
      PutKeysAt(a, b.keys, b.vals, x);
    }
    PutKeysPrefix(a, b.keys, b.vals);
  }

  /** The entry for one key x after putting the keys ks with their values in m. */
  lemma {:induction false} PutKeysAt<K(!new), V>(d: Dict<K, V>, ks: seq<K>, m: map<K, V>, x: K)
    requires Valid(d) && forall k :: k in ks ==> k in m
    ensures x in PutKeys(d, ks, m).vals <==> x in d.vals || x in ks
    ensures x in ks ==> PutKeys(d, ks, m).vals[x] == m[x]
    ensures x !in ks && x in d.vals ==> PutKeys(d, ks, m).vals[x] == d.vals[x]
    decreases |ks|
  {
    if ks != [] {
      PutKeysAt(Put(d, ks[0], m[ks[0]]), ks[1..], m, x);
      assert x in ks <==> x == ks[0] || x in ks[1..];
    }
  }

  lemma {:induction false} PutKeysPrefix<K(!new), V>(d: Dict<K, V>, ks: seq<K>, m: map<K, V>)
    requires Valid(d) && forall k :: k in ks ==> k in m
    ensures d.keys <= PutKeys(d, ks, m).keys
    decreases |ks|
  {
    if ks != [] {
      var d' := Put(d, ks[0], m[ks[0]]);
      PutKeysPrefix(d', ks[1..], m);
      assert d.keys <= d'.keys;
    }
  }

  /** Starting empty, put f(k) for every k of ks in order. */
  function PutAll<K(!new), V>(ks: seq<K>, f: K -> V): (r: Dict<K, V>)
    ensures Valid(r)
  {
    if ks == [] then Empty() else Put(PutAll(ks[..|ks| - 1], f), ks[|ks| - 1], f(ks[|ks| - 1]))
  }

  /**
   * Folding single-key results into a dict gives one entry per distinct key,
   * in order of first occurrence, and the mapping depends on the set of keys
   * only, not on the order in which they arrived.
   */
  lemma PutAllContents<K(!new), V>(ks: seq<K>, f: K -> V)
    ensures PutAll(ks, f).keys == Dedup(ks)
    ensures PutAll(ks, f).vals == map k | k in ks :: f(k)
  {
    PutAllKeys(ks, f);
    PutAllVals(ks, f);
  }

  lemma {:induction false} PutAllKeys<K(!new), V>(ks: seq<K>, f: K -> V)
    ensures PutAll(ks, f).keys == Dedup(ks)
    ensures forall k :: k in PutAll(ks, f).vals <==> k in ks
    decreases |ks|
  {
    if ks != [] {
      var init, last := ks[..|ks| - 1], ks[|ks| - 1];
      PutAllKeys(init, f);
      assert ks == init + [last];
    }
  }

  lemma PutAllVals<K(!new), V>(ks: seq<K>, f: K -> V)
    ensures PutAll(ks, f).vals == map k | k in ks :: f(k)
  {
    forall x
      ensures x in PutAll(ks, f).vals <==> x in ks
      ensures x in ks ==> PutAll(ks, f).vals[x] == f(x)
    {
      PutAllAt(ks, f, x);
    }
  }

  /** The entry for one key x of the fold. */
  lemma {:induction false} PutAllAt<K(!new), V>(ks: seq<K>, f: K -> V, x: K)
    ensures x in PutAll(ks, f).vals <==> x in ks
    ensures x in ks ==> PutAll(ks, f).vals[x] == f(x)
    decreases |ks|
  {
    if ks != [] {
      var init, last := ks[..|ks| - 1], ks[|ks| - 1];
      PutAllAt(init, f, x);
      assert ks == init + [last];
    }
  }

  /**
   * The merge loop `merged = {**merged, **f.result()}` over task results
   * that each hold the single entry `{ks[i]: f(ks[i])}`, taken in order.
   */
  method MergeResults<K(!new), V>(ks: seq<K>, results: seq<Dict<K, V>>, ghost f: K -> V)
    returns (merged: Dict<K, V>)
    requires |results| == |ks|
    requires forall i :: 0 <= i < |ks| ==> results[i] == Single(ks[i], f(ks[i]))
    ensures merged == PutAll(ks, f)
    ensures merged.keys == Dedup(ks)
    ensures merged.vals == map k | k in ks :: f(k)
  {
    merged := Empty();
    for i := 0 to |results|
      invariant merged == PutAll(ks[..i], f)
    {
      UnionSingle(merged, ks[i], f(ks[i]));
      assert ks[..i + 1][..i] == ks[..i];
      merged := Union(merged, results[i]);
    }
    assert ks[..|ks|] == ks;
    PutAllContents(ks, f);
  }

  /** Two arrival orders of the same regions merge to the same mapping. */
  lemma PutAllOrderFree<K(!new), V>(ks1: seq<K>, ks2: seq<K>, f: K -> V)
    requires multiset(ks1) == multiset(ks2)
    ensures PutAll(ks1, f).vals == PutAll(ks2, f).vals
    ensures |PutAll(ks1, f).keys| == |PutAll(ks2, f).keys|
  {
    PutAllContents(ks1, f);
    PutAllContents(ks2, f);
    assert forall k :: k in ks1 <==> k in multiset(ks1);
    assert forall k :: k in ks2 <==> k in multiset(ks2);
    var s1, s2 := PutAll(ks1, f).keys, PutAll(ks2, f).keys;
    DedupProperties(ks1);
    DedupProperties(ks2);
    DistinctSameElementsSameSize(s1, s2);
  }

  /** Two repetition-free lists with the same elements have the same length. */
  lemma DistinctSameElementsSameSize<T>(a: seq<T>, b: seq<T>)
    requires Distinct(a) && Distinct(b)
    requires forall x :: x in a <==> x in b
    ensures |a| == |b|
  {
    DistinctIncludedNoLonger(a, b);
    DistinctIncludedNoLonger(b, a);
  }

  lemma {:induction false} DistinctIncludedNoLonger<T>(a: seq<T>, b: seq<T>)
    requires Distinct(a) && Distinct(b)
    requires forall x :: x in a ==> x in b
    ensures |a| <= |b|
    decreases |a|
  {
    if a != [] {
      var x := a[0];
      var j := FirstIndex(b, x);
      var b' := b[..j] + b[j + 1..];
      DistinctDropOne(b, j);
      assert |b'| == |b| - 1;
      assert Distinct(a[1..]);
      forall y | y in a[1..] ensures y in b' {
        assert y != x;
        assert y in b;
      }
      DistinctIncludedNoLonger(a[1..], b');
    }
  }
}
