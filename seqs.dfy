/** The Python list operations the two scripts rely on, over Dafny sequences. */
module Seqs {

  /** No element occurs twice. */
  predicate Distinct<T(==)>(xs: seq<T>) {
    forall i, j :: 0 <= i < j < |xs| ==> xs[i] != xs[j]
  }

  /** Number of occurrences of c in s. */
  function Count<T(==)>(s: seq<T>, c: T): nat {
    if s == [] then 0 else (if s[0] == c then 1 else 0) + Count(s[1..], c)
  }

  /** An element that occurs is counted. */
  lemma {:induction false} CountPositive<T>(s: seq<T>, c: T)
    requires c in s
    ensures Count(s, c) >= 1
  {
    if s[0] != c { CountPositive(s[1..], c); }
  }

  /** Position of the first occurrence of x (what Python's list.index returns). */
  function FirstIndex<T(==)>(xs: seq<T>, x: T): (k: nat)
    requires x in xs
    ensures k < |xs| && xs[k] == x
    ensures forall j :: 0 <= j < k ==> xs[j] != x
  {
    if xs[0] == x then 0 else 1 + FirstIndex(xs[1..], x)
  }

  /** Python's list.remove(x): deletes the first occurrence of x and nothing else. */
  function RemoveFirst<T(==)>(xs: seq<T>, x: T): (r: seq<T>)
    requires x in xs
    ensures |r| == |xs| - 1
  {
    var k := FirstIndex(xs, x);
    xs[..k] + xs[k + 1..]
  }

  /**
   * list.remove(x) deletes the first occurrence of x: the elements before it
   * (none of which is x) and the elements after it stay, in order.
   */
  lemma RemoveFirstDeletesFirst<T>(xs: seq<T>, x: T)
    requires x in xs
    ensures exists k :: 0 <= k < |xs| && xs[k] == x && x !in xs[..k] && RemoveFirst(xs, x) == xs[..k] + xs[k + 1..]
  {
    var k := FirstIndex(xs, x);
    assert x !in xs[..k] by {
      assert forall j :: 0 <= j < k ==> xs[..k][j] == xs[j];
    }
  }

  /** list.remove(x) takes away exactly one occurrence of x. */
  lemma RemoveFirstMultiset<T>(xs: seq<T>, x: T)
    requires x in xs
    ensures multiset(RemoveFirst(xs, x)) == multiset(xs) - multiset{x}
  {
    var k := FirstIndex(xs, x);
    assert xs == xs[..k] + [x] + xs[k + 1..];
  }

  /** In a list without repetitions the first occurrence of xs[i] is at i. */
  lemma RemoveFirstOfDistinct<T>(xs: seq<T>, i: nat)
    requires Distinct(xs) && i < |xs|
    ensures RemoveFirst(xs, xs[i]) == xs[..i] + xs[i + 1..]
  {
    var k := FirstIndex(xs, xs[i]);
    assert !(k < i) && !(i < k);
  }

  /** Deleting one position keeps a list free of repetitions. */
  lemma DistinctDropOne<T>(xs: seq<T>, i: nat)
    requires Distinct(xs) && i < |xs|
    ensures Distinct(xs[..i] + xs[i + 1..])
  {
    var ys := xs[..i] + xs[i + 1..];
    forall a, b | 0 <= a < b < |ys| ensures ys[a] != ys[b] {
      var a' := if a < i then a else a + 1;
      var b' := if b < i then b else b + 1;
      assert ys[a] == xs[a'] && ys[b] == xs[b'] && a' < b';
    }
  }

  /** a is obtained from b by deleting elements: an order-preserving subsequence. */
  predicate IsSubseq<T(==)>(a: seq<T>, b: seq<T>)
    decreases |b|
  {
    if a == [] then true
    else if b == [] then false
    else if a[0] == b[0] then IsSubseq(a[1..], b[1..])
    else IsSubseq(a, b[1..])
  }

  lemma {:induction false} SubseqRefl<T>(a: seq<T>)
    ensures IsSubseq(a, a)
    decreases |a|
  {
    if a != [] { SubseqRefl(a[1..]); }
  }

  lemma {:induction false} SubseqTrans<T>(a: seq<T>, b: seq<T>, c: seq<T>)
    requires IsSubseq(a, b) && IsSubseq(b, c)
    ensures IsSubseq(a, c)
    decreases |c|
  {
    if a == [] {
    } else if c == [] {
    } else if b[0] == c[0] {
      if a[0] == b[0] {
        SubseqTrans(a[1..], b[1..], c[1..]);
      } else {
        SubseqTrans(a, b[1..], c[1..]);
      }
    } else {
      SubseqTrans(a, b, c[1..]);
      if a[0] == c[0] {
        SubseqTail(a, c[1..]);
      }
    }
  }

  /** Putting an element in front keeps a subsequence a subsequence. */
  lemma {:induction false} SubseqCons<T>(a: seq<T>, b: seq<T>, x: T)
    requires IsSubseq(a, b)
    ensures IsSubseq(a, [x] + b)
    decreases |b|, 1
  {
    assert ([x] + b)[1..] == b;
    if a != [] && a[0] == x {
      SubseqTail(a, b);
    }
  }

  /** Dropping the head of a subsequence keeps it a subsequence. */
  lemma {:induction false} SubseqTail<T>(a: seq<T>, b: seq<T>)
    requires a != [] && IsSubseq(a, b)
    ensures IsSubseq(a[1..], b)
    decreases |b|, 0
  {
    assert [b[0]] + b[1..] == b;
    if a[0] == b[0] {
      SubseqCons(a[1..], b[1..], b[0]);
    } else {
      SubseqTail(a, b[1..]);
      SubseqCons(a[1..], b[1..], b[0]);
    }
  }

  /** Deleting position k from xs leaves a subsequence of xs. */
  lemma {:induction false} DropOneSubseq<T>(xs: seq<T>, k: nat)
    requires k < |xs|
    ensures IsSubseq(xs[..k] + xs[k + 1..], xs)
    decreases k
  {
    var ys := xs[..k] + xs[k + 1..];
    assert [xs[0]] + xs[1..] == xs;
    if k == 0 {
      assert ys == xs[1..];
      SubseqRefl(xs[1..]);
      SubseqCons(xs[1..], xs[1..], xs[0]);
    } else {
      DropOneSubseq(xs[1..], k - 1);
      assert ys[0] == xs[0];
      assert ys[1..] == xs[1..][..k - 1] + xs[1..][k..];
    }
  }

  /** The elements of xs in order of first occurrence, each once. */
  function Dedup<T(==)>(xs: seq<T>): seq<T> {
    if xs == [] then []
    else
      var d := Dedup(xs[..|xs| - 1]);
      if xs[|xs| - 1] in d then d else d + [xs[|xs| - 1]]
  }

  /**
   * Dedup keeps exactly the elements of xs, each once, ordered by where they
   * first occur in xs; it is shorter than xs exactly when xs repeats.
   */
  lemma DedupProperties<T>(xs: seq<T>)
    ensures Distinct(Dedup(xs))
    ensures forall x :: x in Dedup(xs) <==> x in xs
    ensures |Dedup(xs)| <= |xs|
    ensures |Dedup(xs)| == |xs| <==> Distinct(xs)
    ensures Distinct(xs) ==> Dedup(xs) == xs
    ensures forall i, j :: 0 <= i < j < |Dedup(xs)| ==> FirstIndex(xs, Dedup(xs)[i]) < FirstIndex(xs, Dedup(xs)[j])
  {
    DedupElements(xs);
    DedupOrder(xs);
  }

  /** The first occurrence of an element of a is not moved by appending to a. */
  lemma FirstIndexAppend<T>(a: seq<T>, b: seq<T>, y: T)
    requires y in a
    ensures FirstIndex(a + b, y) == FirstIndex(a, y)
  {
    var k := FirstIndex(a, y);
    assert (a + b)[k] == y;
  }

  lemma {:induction false} DedupOrder<T>(xs: seq<T>)
    ensures forall x :: x in Dedup(xs) <==> x in xs
    ensures forall i, j :: 0 <= i < j < |Dedup(xs)| ==> FirstIndex(xs, Dedup(xs)[i]) < FirstIndex(xs, Dedup(xs)[j])
    decreases |xs|, 1
  {
    DedupElements(xs);
    if xs != [] {
      var init, last := xs[..|xs| - 1], xs[|xs| - 1];
      assert xs == init + [last];
      DedupOrderSnoc(init, last);
    }
  }

  /** The step of DedupOrder for init + [last]. */
  lemma {:induction false} DedupOrderSnoc<T>(init: seq<T>, last: T)
    ensures forall i, j :: 0 <= i < j < |Dedup(init + [last])| ==>
      Dedup(init + [last])[i] in init + [last] && Dedup(init + [last])[j] in init + [last] &&
      FirstIndex(init + [last], Dedup(init + [last])[i]) < FirstIndex(init + [last], Dedup(init + [last])[j])
    decreases |init| + 1, 0
  {
    var xs := init + [last];
    assert xs[..|xs| - 1] == init;
    DedupOrder(init);
    DedupElements(init);
    DedupElements(xs);
    var d, dx := Dedup(init), Dedup(xs);
    forall i, j | 0 <= i < j < |dx|
      ensures dx[i] in xs && dx[j] in xs && FirstIndex(xs, dx[i]) < FirstIndex(xs, dx[j])
    {
      assert dx[i] == d[i];
      FirstIndexAppend(init, [last], d[i]);
      if j < |d| {
        assert dx[j] == d[j];
        FirstIndexAppend(init, [last], d[j]);
      } else {
        assert dx[j] == last && last !in init;
      }
    }
  }

  lemma {:induction false} DedupElements<T>(xs: seq<T>)
    ensures Distinct(Dedup(xs))
    ensures forall x :: x in Dedup(xs) <==> x in xs
    ensures forall i :: 0 <= i < |Dedup(xs)| ==> Dedup(xs)[i] in xs
    ensures |Dedup(xs)| <= |xs|
    ensures |Dedup(xs)| == |xs| <==> Distinct(xs)
    ensures Distinct(xs) ==> Dedup(xs) == xs
    decreases |xs|
  {
    if xs != [] {
      var init, last := xs[..|xs| - 1], xs[|xs| - 1];
      DedupElements(init);
      assert xs == init + [last];
      var d := Dedup(init);
      if last in d {
        assert !Distinct(xs) by {
          var k :| 0 <= k < |init| && init[k] == last;
          assert xs[k] == xs[|xs| - 1];
        }
      } else {
        if Distinct(init) {
          assert Distinct(xs);
        }
        if Distinct(xs) {
          assert forall i, j :: 0 <= i < j < |init| ==> init[i] == xs[i] && init[j] == xs[j];
          assert Distinct(init);
        }
      }
    }
  }
}
