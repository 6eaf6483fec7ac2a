/**
  Nearest-brightness matching: the index is sorted ascending by score with a stable sort
  (`sorted(average_brightness.items(), key=lambda x: x[1])`), and each tile takes the
  first entry of the sorted list whose score is nearest to the tile's mean
  (`min(sorted_brightness, key=lambda x: abs(x[1] - avg_brightness))`).
 */
module Matching {

  /** A `(glyph file name, score)` item of the brightness dict. */
  type Entry = (string, real)

  predicate SortedByScore(s: seq<Entry>) {
    forall i, j :: 0 <= i < j < |s| ==> s[i].1 <= s[j].1
  }

  /** The entries of `s` whose score is exactly `v`, in their order in `s`. */
  function WithScore(s: seq<Entry>, v: real): seq<Entry> {
    if s == [] then []
    else (if s[0].1 == v then [s[0]] else []) + WithScore(s[1..], v)
  }

  /** Every entry of a permutation of `s[1..]` plus `x` scores at least `s[0]`. */
  lemma HeadBelowRest(x: Entry, s: seq<Entry>, rest: seq<Entry>)
    requires SortedByScore(s) && |s| >= 1 && s[0].1 < x.1
    requires multiset(rest) == multiset(s[1..]) + multiset{x}
    ensures forall i :: 0 <= i < |rest| ==> s[0].1 <= rest[i].1
  {
    forall i | 0 <= i < |rest|
      ensures s[0].1 <= rest[i].1
    {
      assert rest[i] in multiset(rest);
      if rest[i] != x {
        assert rest[i] in multiset(s[1..]);
        var p :| 0 <= p < |s[1..]| && s[1..][p] == rest[i];
        assert s[p + 1] == rest[i];
      }
    }
  }

  /** Inserts `x` in front of the first entry whose score is at least its own. */
  function InsertByScore(x: Entry, s: seq<Entry>): (r: seq<Entry>)
    requires SortedByScore(s)
    ensures SortedByScore(r)
    ensures multiset(r) == multiset(s) + multiset{x}
  {
    if s == [] || x.1 <= s[0].1 then
      [x] + s
    else
      var rest := InsertByScore(x, s[1..]);
      assert s == [s[0]] + s[1..];
      HeadBelowRest(x, s, rest);
      [s[0]] + rest
  }

  /** Inserting `x` puts it before the entries that share its score and moves no other. */
  lemma {:induction false} InsertWithScore(x: Entry, s: seq<Entry>, v: real)
    requires SortedByScore(s)
    ensures WithScore(InsertByScore(x, s), v) == if v == x.1 then [x] + WithScore(s, v) else WithScore(s, v)
  {
    if s == [] || x.1 <= s[0].1 {
      assert ([x] + s)[1..] == s;
    } else {
      var rest := InsertByScore(x, s[1..]);
      InsertWithScore(x, s[1..], v);
      assert ([s[0]] + rest)[1..] == rest;
    }
  }

  /**
    Python's `sorted(..., key=score)`: ascending by score and a permutation of the input.
   */
  function SortByScore(s: seq<Entry>): (r: seq<Entry>)
    ensures SortedByScore(r)
    ensures multiset(r) == multiset(s)
  {
    if s == [] then []
    else
      assert s == [s[0]] + s[1..];
      InsertByScore(s[0], SortByScore(s[1..]))
  }

  /** The sort is stable: the entries sharing any one score keep their input order. */
  lemma {:induction false} SortIsStable(s: seq<Entry>, v: real)
    ensures WithScore(SortByScore(s), v) == WithScore(s, v)
  {
    if s != [] {
      SortIsStable(s[1..], v);
      InsertWithScore(s[0], SortByScore(s[1..]), v);
    }
  }

  /** `abs(score - mean)`. */
  function Dist(e: Entry, mean: real): (d: real)
    ensures d >= 0.0
    ensures d == e.1 - mean || d == mean - e.1
  {
    if e.1 >= mean then e.1 - mean else mean - e.1
  }

  /**
    The position `min` picks: it scans left to right and replaces its candidate only by
    a strictly nearer entry, so it returns the FIRST entry at minimal distance.
   */
  function Nearest(s: seq<Entry>, mean: real): (k: nat)
    requires |s| >= 1
    ensures k < |s|
    ensures forall j :: 0 <= j < |s| ==> Dist(s[k], mean) <= Dist(s[j], mean)
    ensures forall j :: 0 <= j < k ==> Dist(s[j], mean) > Dist(s[k], mean)
  {
    if |s| == 1 then 0
    else
      var k := Nearest(s[..|s| - 1], mean);
      if Dist(s[|s| - 1], mean) < Dist(s[k], mean) then |s| - 1 else k
  }

  /** The glyph key the sorted index yields for a tile whose mean is `mean`. */
  function MatchKey(sorted: seq<Entry>, mean: real): (name: string)
    requires |sorted| >= 1
    ensures exists e :: e in sorted && e.0 == name && forall f :: f in sorted ==> Dist(e, mean) <= Dist(f, mean)
  {
    var e := sorted[Nearest(sorted, mean)];
    assert forall f :: f in sorted ==> Dist(e, mean) <= Dist(f, mean);
    e.0
  }

  /** The first entry of `s` with score `v` heads `WithScore(s, v)`. */
  lemma {:induction false} FirstWithScore(s: seq<Entry>, v: real, p: nat)
    requires p < |s| && s[p].1 == v
    requires forall q :: 0 <= q < p ==> s[q].1 != v
    ensures |WithScore(s, v)| >= 1 && WithScore(s, v)[0] == s[p]
  {
    if p > 0 {
      FirstWithScore(s[1..], v, p - 1);
    }
  }

  /** The first entry of `s` with score `v`, when there is one. */
  lemma {:induction false} FirstIndexWithScore(s: seq<Entry>, v: real, k: nat) returns (p: nat)
    requires k < |s| && s[k].1 == v
    ensures p <= k && s[p].1 == v
    ensures forall q :: 0 <= q < p ==> s[q].1 != v
  {
    if s[0].1 == v {
      p := 0;
    } else {
      var p' := FirstIndexWithScore(s[1..], v, k - 1);
      p := p' + 1;
    }
  }

  /**
    What the stable sort followed by the first-minimal scan chooses, stated on the
    brightness dict itself: an entry of the dict at minimal distance from the mean; of
    the entries at that distance, the one with the lowest score; of the entries with
    that score, the one inserted first. Ties are therefore never broken arbitrarily.
   */
  lemma {:induction false} ChosenEntry(d: seq<Entry>, mean: real)
    requires |d| >= 1
    ensures var sorted := SortByScore(d);
            var c := sorted[Nearest(sorted, mean)];
            && c in d
            && (forall e :: e in d ==> Dist(c, mean) <= Dist(e, mean))
            && (forall e :: e in d && Dist(e, mean) == Dist(c, mean) ==> c.1 <= e.1)
            && |WithScore(d, c.1)| >= 1 && WithScore(d, c.1)[0] == c
  {
    var sorted := SortByScore(d);
    assert |sorted| == |d| by {
      assert |multiset(sorted)| == |multiset(d)|;
    }
    NearestOfSorted(sorted, d, mean);
    NearestFirstOfItsScore(sorted, mean);
    SortIsStable(d, sorted[Nearest(sorted, mean)].1);
  }

  /** On a sorted permutation of `d`, the scan's choice is nearest, and lowest among the nearest. */
  lemma NearestOfSorted(sorted: seq<Entry>, d: seq<Entry>, mean: real)
    requires |sorted| >= 1 && SortedByScore(sorted) && multiset(sorted) == multiset(d)
    ensures var c := sorted[Nearest(sorted, mean)];
            && c in d
            && (forall e :: e in d ==> Dist(c, mean) <= Dist(e, mean))
            && (forall e :: e in d && Dist(e, mean) == Dist(c, mean) ==> c.1 <= e.1)
  {
    var k := Nearest(sorted, mean);
    var c := sorted[k];
    assert c in multiset(d);
    forall e | e in d
      ensures Dist(c, mean) <= Dist(e, mean)
      ensures Dist(e, mean) == Dist(c, mean) ==> c.1 <= e.1
    {
      assert e in multiset(sorted);
      var j :| 0 <= j < |sorted| && sorted[j] == e;
      if e.1 < c.1 {
        assert j < k;
      }
    }
  }

  /** No entry before the scan's choice has the same score: the choice heads its score group. */
  lemma NearestFirstOfItsScore(s: seq<Entry>, mean: real)
    requires |s| >= 1
    ensures var c := s[Nearest(s, mean)];
            |WithScore(s, c.1)| >= 1 && WithScore(s, c.1)[0] == c
  {
    var k := Nearest(s, mean);
    var p := FirstIndexWithScore(s, s[k].1, k);
    assert Dist(s[p], mean) == Dist(s[k], mean);
    assert p == k;
    FirstWithScore(s, s[k].1, p);
  }
}
