/**
 * Turning the AWS_REGIONS setting into a list of region codes. Both scripts
 * do this with the same three-way test: "all" in any letter case means every
 * active region, a value with a comma is a comma-separated list whose pieces
 * are stripped of surrounding whitespace, and anything else is one region.
 */
module Regions {
  import opened Seqs

  type Region = string

  /** Lower-casing of one character (ASCII letters; every other character is kept). */
  function LowerChar(c: char): char {
    if 'A' <= c <= 'Z' then (c as int - 'A' as int + 'a' as int) as char else c
  }

  function Lower(s: string): string {
    if s == [] then [] else [LowerChar(s[0])] + Lower(s[1..])
  }

  /** `spec.lower() == 'all'`. */
  predicate IsAll(spec: string) {
    Lower(spec) == "all"
  }

  /** Exactly the eight letter-case spellings of "all" select every region. */
  lemma IsAllSpellings(spec: string)
    ensures IsAll(spec) <==> spec in {"all", "alL", "aLl", "aLL", "All", "AlL", "ALl", "ALL"}
  {
    assert |Lower(spec)| == |spec| by { LowerLength(spec); }
    if |spec| == 3 {
      assert Lower(spec) == [LowerChar(spec[0]), LowerChar(spec[1]), LowerChar(spec[2])] by {
        assert spec[1..][1..] == spec[2..] && spec[2..][1..] == [];
        assert Lower(spec[2..]) == [LowerChar(spec[2])];
        assert Lower(spec[1..]) == [LowerChar(spec[1])] + Lower(spec[2..]);
      }
      assert forall c: char :: LowerChar(c) == 'a' <==> c == 'a' || c == 'A';
      assert forall c: char :: LowerChar(c) == 'l' <==> c == 'l' || c == 'L';
      assert spec == [spec[0], spec[1], spec[2]];
    }
  }

  lemma {:induction false} LowerLength(s: string)
    ensures |Lower(s)| == |s|
  {
    if s != [] { LowerLength(s[1..]); }
  }

  /** The characters Python's `str.strip()` removes (the ASCII ones). */
  predicate IsSpace(c: char) {
    c == ' ' || 9 <= c as int <= 13 || 28 <= c as int <= 31
  }

  /** Leading whitespace removed: r is the suffix of s left after every leading space. */
  function StripLeft(s: string): (r: string)
    ensures |r| <= |s| && r == s[|s| - |r|..]
    ensures forall i :: 0 <= i < |s| - |r| ==> IsSpace(s[i])
    ensures r != [] ==> !IsSpace(r[0])
  {
    if s != [] && IsSpace(s[0]) then
      var r := StripLeft(s[1..]);
      assert s[1..][|s| - 1 - |r|..] == s[|s| - |r|..];
      assert forall i :: 1 <= i < |s| - |r| ==> s[i] == s[1..][i - 1];
      r
    else s
  }

  /** Trailing whitespace removed: r is the prefix of s before every trailing space. */
  function StripRight(s: string): (r: string)
    ensures |r| <= |s| && r == s[..|r|]
    ensures forall i :: |r| <= i < |s| ==> IsSpace(s[i])
    ensures r != [] ==> !IsSpace(r[|r| - 1])
  {
    if s != [] && IsSpace(s[|s| - 1]) then
      var r := StripRight(s[..|s| - 1]);
      assert s[..|s| - 1][..|r|] == s[..|r|];
      assert forall i :: |r| <= i < |s| - 1 ==> s[i] == s[..|s| - 1][i];
      r
    else s
  }

  /** `s.strip()`: the infix of s left once the whitespace at both ends is cut off. */
  function Strip(s: string): (r: string)
    ensures |r| <= |s|
    ensures IsCore(r, s)
    ensures r != [] ==> !IsSpace(r[0]) && !IsSpace(r[|r| - 1])
  {
    StripCoreAt(s);
    StripRight(StripLeft(s))
  }

  lemma StripCoreAt(s: string)
    ensures IsCoreAt(StripRight(StripLeft(s)), s, |s| - |StripLeft(s)|)
  {
    var l := StripLeft(s);
    CoreOfParts(s, l, StripRight(l));
  }

  /** A suffix after leading whitespace, cut before trailing whitespace, is a core at its offset. */
  lemma CoreOfParts(s: string, l: string, r: string)
    requires |l| <= |s| && l == s[|s| - |l|..]
    requires forall i :: 0 <= i < |s| - |l| ==> IsSpace(s[i])
    requires |r| <= |l| && r == l[..|r|]
    requires forall i :: |r| <= i < |l| ==> IsSpace(l[i])
    ensures IsCoreAt(r, s, |s| - |l|)
  {
    var lo := |s| - |l|;
    assert r == s[lo..lo + |r|];
    forall i | lo + |r| <= i < |s| ensures IsSpace(s[i]) {
      assert s[i] == l[i - lo];
    }
  }

  /** r sits in s at lo, and everything around it is whitespace. */
  predicate IsCoreAt(r: string, s: string, lo: nat) {
    && lo + |r| <= |s|
    && r == s[lo..lo + |r|]
    && (forall i :: 0 <= i < lo ==> IsSpace(s[i]))
    && (forall i :: lo + |r| <= i < |s| ==> IsSpace(s[i]))
  }

  /** r is s with some whitespace taken off each end. */
  predicate IsCore(r: string, s: string) {
    exists lo: nat :: lo <= |s| && IsCoreAt(r, s, lo)
  }

  /** Stripping changes a string exactly when it starts or ends with whitespace. */
  lemma StripFixpoint(s: string)
    ensures Strip(s) == s <==> s == [] || (!IsSpace(s[0]) && !IsSpace(s[|s| - 1]))
  {
    if s != [] && !IsSpace(s[0]) && !IsSpace(s[|s| - 1]) {
      assert StripLeft(s) == s;
    }
  }

  /** Stripping twice is stripping once. */
  lemma StripIdempotent(s: string)
    ensures Strip(Strip(s)) == Strip(s)
  {
    StripFixpoint(Strip(s));
  }

  /** `sep.join(parts)`. */
  function Join(parts: seq<string>, sep: char): string {
    if |parts| == 0 then []
    else if |parts| == 1 then parts[0]
    else parts[0] + [sep] + Join(parts[1..], sep)
  }

  /** `s.split(sep)`: the pieces between separators, empty ones included. */
  function Split(s: string, sep: char): (parts: seq<string>)
    ensures |parts| == Count(s, sep) + 1
    ensures forall i :: 0 <= i < |parts| ==> sep !in parts[i]
    ensures Join(parts, sep) == s
  {
    if s == [] then [[]]
    else
      var rest := Split(s[1..], sep);
      if s[0] == sep then
        assert ([[]] + rest)[1..] == rest;
        [[]] + rest
      else
        var parts := [[s[0]] + rest[0]] + rest[1..];
        assert parts[1..] == rest[1..];
        assert s == [s[0]] + s[1..];
        parts
  }

  /** Splitting undoes joining separator-free pieces: Split is the only such decomposition. */
  lemma {:induction false} SplitJoin(parts: seq<string>, sep: char)
    requires |parts| >= 1
    requires forall i :: 0 <= i < |parts| ==> sep !in parts[i]
    ensures Split(Join(parts, sep), sep) == parts
    decreases |Join(parts, sep)|
  {
    var s := Join(parts, sep);
    if parts[0] == [] {
      if |parts| > 1 {
        assert s == [sep] + Join(parts[1..], sep);
        assert s[1..] == Join(parts[1..], sep);
        SplitJoin(parts[1..], sep);
        assert parts == [[]] + parts[1..];
      }
    } else {
      var c := parts[0][0];
      var tailParts := [parts[0][1..]] + parts[1..];
      assert tailParts[1..] == parts[1..];
      assert c != sep;
      assert s == [c] + Join(tailParts, sep) by {
        if |parts| > 1 {
          assert parts[0] == [c] + parts[0][1..];
        }
      }
      assert s[1..] == Join(tailParts, sep);
      forall i | 0 <= i < |tailParts| ensures sep !in tailParts[i] {
        if i == 0 {
          assert forall x :: x in parts[0][1..] ==> x in parts[0];
        } else {
          assert tailParts[i] == parts[i];
        }
      }
      SplitJoin(tailParts, sep);
      assert [c] + tailParts[0] == parts[0];
      assert parts == [parts[0]] + parts[1..];
      assert Split(s, sep) == [[c] + tailParts[0]] + tailParts[1..];
    }
  }

  /**
   * `[r.strip() for r in parts]`: piece for piece, the input piece with the
   * whitespace at both ends cut off.
   */
  function StripAll(parts: seq<string>): (r: seq<string>)
    ensures |r| == |parts|
    ensures forall i :: 0 <= i < |r| ==> r[i] == Strip(parts[i])
    ensures forall i :: 0 <= i < |r| ==> IsCore(r[i], parts[i])
    ensures forall i :: 0 <= i < |r| && r[i] != [] ==> !IsSpace(r[i][0]) && !IsSpace(r[i][|r[i]| - 1])
  {
    seq(|parts|, i requires 0 <= i < |parts| => Strip(parts[i]))
  }

  /** cwRegions as the scripts compute it from AWS_REGIONS and the active region list. */
  function ResolveSpec(spec: string, active: seq<Region>): (regions: seq<Region>)
    ensures IsAll(spec) ==> regions == active
    ensures !IsAll(spec) && ',' in spec ==>
      && |regions| == Count(spec, ',') + 1
      && |regions| >= 2
      && forall i :: 0 <= i < |regions| ==>
        && ',' !in regions[i]
        && regions[i] == Strip(Split(spec, ',')[i])
        && (regions[i] != [] ==> !IsSpace(regions[i][0]) && !IsSpace(regions[i][|regions[i]| - 1]))
    ensures !IsAll(spec) && ',' !in spec ==> regions == [spec]
  {
    if IsAll(spec) then active
    else if ',' in spec then
      var parts := Split(spec, ',');
      var r := StripAll(parts);
      assert Count(spec, ',') >= 1 by { CountPositive(spec, ','); }
      forall i | 0 <= i < |r| ensures ',' !in r[i] {
        StripInfix(parts[i]);
      }
      r
    else [spec]
  }

  /** Every character of Strip(s) is a character of s. */
  lemma StripInfix(s: string)
    ensures forall x :: x in Strip(s) ==> x in s
  {
    var l := StripLeft(s);
    assert forall x :: x in StripRight(l) ==> x in l;
    assert forall x :: x in l ==> x in s;
  }
}
