/**
 * The retention script's lenient region check: it walks cwRegions with a
 * Python `for` loop and calls `cwRegions.remove(r)` on every region that is
 * not active, inside that same loop. Python's list iterator keeps a position
 * and reads the element at that position on each step; removing the current
 * element shifts the rest of the list left by one, so the element right after
 * a removed one is never looked at. The model keeps that behaviour.
 */
module LenientValidation {
  import opened Seqs
  import opened Regions

  /**
   * The iteration from position i on: the list iterator positioned at i over
   * xs, running the body of the validation loop at each step.
   */
  function Sweep(xs: seq<Region>, i: nat, active: seq<Region>): seq<Region>
    decreases |xs| - i
  {
    if i >= |xs| then xs
    else if xs[i] in active then Sweep(xs, i + 1, active)
    else Sweep(RemoveFirst(xs, xs[i]), i + 1, active)
  }

  /** What the loop evidently means to keep: the active regions, in order. */
  function ActiveOnly(xs: seq<Region>, active: seq<Region>): (r: seq<Region>)
    ensures forall x :: x in r <==> x in xs && x in active
  {
    if xs == [] then []
    else (if xs[0] in active then [xs[0]] else []) + ActiveOnly(xs[1..], active)
  }

  /** The validation loop, run on a local copy of the region list. */
  method ValidateLenient(regions: seq<Region>, active: seq<Region>) returns (kept: seq<Region>)
    ensures kept == Sweep(regions, 0, active)
  {
    kept := regions;
    var i := 0;
    while i < |kept|
      invariant 0 <= i
      invariant Sweep(kept, i, active) == Sweep(regions, 0, active)
      decreases |kept| - i
    {
      var r := kept[i];
      i := i + 1;
      if r !in active {
        kept := RemoveFirst(kept, r);
      }
    }
  }

  /**
   * The loop only ever removes regions that are not active: every active
   * region keeps all its occurrences, nothing is added, and the survivors
   * keep their order.
   */
  lemma SweepRemovesOnlyInvalid(xs: seq<Region>, i: nat, active: seq<Region>)
    ensures multiset(Sweep(xs, i, active)) <= multiset(xs)
    ensures forall x :: x in active ==> multiset(Sweep(xs, i, active))[x] == multiset(xs)[x]
    ensures IsSubseq(Sweep(xs, i, active), xs)
  {
    SweepMultiset(xs, i, active);
    SweepSubseq(xs, i, active);
  }

  lemma {:induction false} SweepMultiset(xs: seq<Region>, i: nat, active: seq<Region>)
    ensures multiset(Sweep(xs, i, active)) <= multiset(xs)
    ensures forall x :: x in active ==> multiset(Sweep(xs, i, active))[x] == multiset(xs)[x]
    decreases |xs| - i
  {
    if i < |xs| {
      if xs[i] in active {
        SweepMultiset(xs, i + 1, active);
      } else {
        var ys := RemoveFirst(xs, xs[i]);
        RemoveFirstMultiset(xs, xs[i]);
        SweepMultiset(ys, i + 1, active);
      }
    }
  }

  lemma {:induction false} SweepSubseq(xs: seq<Region>, i: nat, active: seq<Region>)
    ensures IsSubseq(Sweep(xs, i, active), xs)
    decreases |xs| - i
  {
    if i >= |xs| {
      SubseqRefl(xs);
    } else if xs[i] in active {
      SweepSubseq(xs, i + 1, active);
    } else {
      var ys := RemoveFirst(xs, xs[i]);
      SweepSubseq(ys, i + 1, active);
      DropOneSubseq(xs, FirstIndex(xs, xs[i]));
      SubseqTrans(Sweep(ys, i + 1, active), ys, xs);
    }
  }

  /** Active regions in the parsed list survive validation. */
  lemma ActiveRegionsSurvive(xs: seq<Region>, active: seq<Region>, r: Region)
    requires r in xs && r in active
    ensures r in Sweep(xs, 0, active)
  {
    SweepRemovesOnlyInvalid(xs, 0, active);
    assert multiset(xs)[r] > 0;
  }

  /** No two neighbouring regions are both inactive. */
  predicate NoAdjacentInvalid(xs: seq<Region>, active: seq<Region>) {
    |xs| < 2 || ((xs[0] in active || xs[1] in active) && NoAdjacentInvalid(xs[1..], active))
  }

  /** The generalisation: p has been walked (it is all active), s is still ahead. */
  lemma {:induction false} SweepFiltersSpread(p: seq<Region>, s: seq<Region>, active: seq<Region>)
    requires Distinct(p + s)
    requires forall k :: 0 <= k < |p| ==> p[k] in active
    requires NoAdjacentInvalid(s, active)
    ensures Sweep(p + s, |p|, active) == p + ActiveOnly(s, active)
    decreases |s|, 1
  {
    var xs := p + s;
    if s == [] {
      assert xs == p;
    } else if s[0] in active {
      var p' := p + [s[0]];
      assert xs == p' + s[1..];
      assert xs[|p|] == s[0];
      assert Sweep(xs, |p|, active) == Sweep(xs, |p'|, active);
      assert forall k :: 0 <= k < |p'| ==> p'[k] in active by {
        assert forall k :: 0 <= k < |p| ==> p'[k] == p[k];
      }
      SweepFiltersSpread(p', s[1..], active);
      var rest := ActiveOnly(s[1..], active);
      assert ActiveOnly(s, active) == [s[0]] + rest;
      AppendAssoc(p, [s[0]], rest);
    } else {
      SweepFiltersRemoval(p, s, active);
    }
  }

  /** The step of SweepFiltersSpread where the next region is removed. */
  lemma {:induction false} SweepFiltersRemoval(p: seq<Region>, s: seq<Region>, active: seq<Region>)
    requires Distinct(p + s)
    requires forall k :: 0 <= k < |p| ==> p[k] in active
    requires NoAdjacentInvalid(s, active)
    requires s != [] && s[0] !in active
    ensures Sweep(p + s, |p|, active) == p + ActiveOnly(s, active)
    decreases |s|, 0
  {
    var xs := p + s;
    var ys := RemoveHead(p, s);
    assert Sweep(xs, |p|, active) == Sweep(ys, |p| + 1, active);
    if |s| == 1 {
      assert ActiveOnly(s, active) == [] by {
        assert ActiveOnly(s[1..], active) == [];
      }
      assert ys == p;
    } else {
      var p' := p + [s[1]];
      assert ys == p' + s[2..];
      assert s[1] in active;
      assert forall k :: 0 <= k < |p'| ==> p'[k] in active by {
        assert forall k :: 0 <= k < |p| ==> p'[k] == p[k];
      }
      assert NoAdjacentInvalid(s[2..], active) by {
        assert s[1..][1..] == s[2..];
      }
      SweepFiltersSpread(p', s[2..], active);
      var rest := ActiveOnly(s[2..], active);
      assert ActiveOnly(s, active) == [s[1]] + rest by {
        assert s[1..][1..] == s[2..];
        assert ActiveOnly(s[1..], active) == [s[1]] + rest;
      }
      AppendAssoc(p, [s[1]], rest);
    }
  }

  /** Regrouping a concatenation, kept apart so the lemmas above need not search for it. */
  lemma AppendAssoc(a: seq<Region>, b: seq<Region>, c: seq<Region>)
    ensures (a + b) + c == a + (b + c)
  {
  }

  /** One removal step at the boundary between p and s. */
  lemma RemoveHead(p: seq<Region>, s: seq<Region>) returns (ys: seq<Region>)
    requires Distinct(p + s) && s != []
    ensures ys == p + s[1..] && Distinct(ys)
    ensures (p + s)[|p|] == s[0] && RemoveFirst(p + s, s[0]) == ys
  {
    var xs := p + s;
    RemoveFirstOfDistinct(xs, |p|);
    DistinctDropOne(xs, |p|);
    assert xs[..|p|] == p && xs[|p| + 1..] == s[1..];
    ys := p + s[1..];
  }

  /**
   * With distinct regions and never two invalid ones side by side, the loop
   * removes every invalid region and keeps every active one.
   */
  lemma SweepFiltersWhenSpread(xs: seq<Region>, active: seq<Region>)
    requires Distinct(xs)
    requires NoAdjacentInvalid(xs, active)
    ensures Sweep(xs, 0, active) == ActiveOnly(xs, active)
    ensures forall r :: r in Sweep(xs, 0, active) <==> r in xs && r in active
  {
    assert [] + xs == xs;
    SweepFiltersSpread([], xs, active);
  }

  /** Removing xs[i] from a repetition-free list deletes position i. */
  lemma RemoveAt(xs: seq<Region>, i: nat) returns (ys: seq<Region>)
    requires Distinct(xs) && i < |xs|
    ensures ys == RemoveFirst(xs, xs[i]) && Distinct(ys) && |ys| == |xs| - 1
    ensures ys[..i] == xs[..i]
    ensures i < |ys| ==> ys[i] == xs[i + 1]
  {
    RemoveFirstOfDistinct(xs, i);
    DistinctDropOne(xs, i);
    ys := xs[..i] + xs[i + 1..];
    assert ys[..i] == xs[..i];
  }

  /** With distinct regions the walk never disturbs the part of the list it has passed. */
  lemma {:induction false} SweepKeepsPassed(xs: seq<Region>, i: nat, active: seq<Region>)
    requires Distinct(xs) && i <= |xs|
    ensures xs[..i] <= Sweep(xs, i, active)
    decreases |xs| - i
  {
    if i < |xs| {
      if xs[i] in active {
        SweepKeepsPassed(xs, i + 1, active);
        assert xs[..i] <= xs[..i + 1];
      } else {
        var ys := RemoveAt(xs, i);
        if i + 1 <= |ys| {
          SweepKeepsPassed(ys, i + 1, active);
          assert ys[..i] <= ys[..i + 1];
        }
      }
    }
  }

  /** The element right after a removed one is skipped, so it survives whatever it is. */
  lemma SweepSkipsNext(xs: seq<Region>, i: nat, active: seq<Region>)
    requires Distinct(xs) && i + 1 < |xs|
    requires xs[i] !in active
    ensures xs[i + 1] in Sweep(xs, i, active)
  {
    var ys := RemoveAt(xs, i);
    SweepKeepsPassed(ys, i + 1, active);
    var out := Sweep(ys, i + 1, active);
    assert ys[..i + 1] <= out;
    assert out[i] == ys[..i + 1][i];
  }

  /** Walking past active regions changes nothing. */
  lemma {:induction false} SweepPastActive(xs: seq<Region>, i: nat, j: nat, active: seq<Region>)
    requires i <= j <= |xs|
    requires forall k :: i <= k < j ==> xs[k] in active
    ensures Sweep(xs, i, active) == Sweep(xs, j, active)
    decreases j - i
  {
    if i < j {
      SweepPastActive(xs, i + 1, j, active);
    }
  }

  /**
   * Two invalid regions in a row, after only active ones: the first is
   * removed and the second stays in the list, so validation lets an invalid
   * region through.
   */
  lemma AdjacentInvalidSurvives(xs: seq<Region>, j: nat, active: seq<Region>)
    requires Distinct(xs) && j + 1 < |xs|
    requires forall k :: 0 <= k < j ==> xs[k] in active
    requires xs[j] !in active && xs[j + 1] !in active
    ensures xs[j + 1] in Sweep(xs, 0, active)
    ensures Sweep(xs, 0, active) != ActiveOnly(xs, active)
  {
    SweepPastActive(xs, 0, j, active);
    SweepSkipsNext(xs, j, active);
  }

  /** "eu-x,eu-y" against an active list lacking both: only eu-x is removed. */
  lemma SkipExample()
    ensures Sweep(["eu-x", "eu-y"], 0, ["us-east-1"]) == ["eu-y"]
  {
    var xs: seq<Region> := ["eu-x", "eu-y"];
    assert xs[0] !in ["us-east-1"];
    assert RemoveFirst(xs, xs[0]) == ["eu-y"] by {
      assert FirstIndex(xs, xs[0]) == 0;
    }
  }
}
