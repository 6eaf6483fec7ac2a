/**
  Python's `dict` as the glyph code uses it: an insertion-ordered association list.
  `d[k] = v` replaces the value of an existing key where it stands and appends a new
  key at the end, so the order of `d.items()` is the order of first insertion.
 */
module Dicts {

  type Dict<K, V> = seq<(K, V)>

  predicate Distinct<T(==)>(s: seq<T>) {
    forall i, j :: 0 <= i < j < |s| ==> s[i] != s[j]
  }

  /** `list(d.keys())`, in insertion order. */
  function Keys<K, V>(d: Dict<K, V>): (ks: seq<K>)
    ensures |ks| == |d|
    ensures forall i :: 0 <= i < |d| ==> ks[i] == d[i].0
  {
    if d == [] then [] else [d[0].0] + Keys(d[1..])
  }

  /** Position of key `k` in `d`. */
  function IndexOf<K(==), V>(d: Dict<K, V>, k: K): (i: nat)
    requires k in Keys(d)
    ensures i < |d| && d[i].0 == k
  {
    if d[0].0 == k then 0 else IndexOf(d[1..], k) + 1
  }

  /** `d[k] = v`; the keys of a dict are always distinct. */
  function SetItem<K(==), V>(d: Dict<K, V>, k: K, v: V): (d': Dict<K, V>)
    requires Distinct(Keys(d))
    ensures Distinct(Keys(d'))
    ensures k in Keys(d) ==> |d'| == |d|
    ensures k !in Keys(d) ==> |d'| == |d| + 1 && d'[|d|] == (k, v)
    ensures forall i :: 0 <= i < |d| ==> d'[i] == if d[i].0 == k then (k, v) else d[i]
    ensures Keys(d') == if k in Keys(d) then Keys(d) else Keys(d) + [k]
  {
    if k in Keys(d) then
      var i := IndexOf(d, k);
      assert forall j :: 0 <= j < |d| && j != i ==> d[j].0 == Keys(d)[j] != Keys(d)[i] == k;
      var d' := d[i := (k, v)];
      assert Keys(d') == Keys(d);
      d'
    else
      var d' := d + [(k, v)];
      assert Keys(d') == Keys(d) + [k];
      d'
  }

  /** The elements of `s` in order of first occurrence (what a dict keeps of repeated keys). */
  function Unique<T(==, !new)>(s: seq<T>): (u: seq<T>)
    ensures Distinct(u)
    ensures forall x :: x in u <==> x in s
    ensures Distinct(s) ==> u == s
  {
    if s == [] then []
    else
      var init := Unique(s[..|s| - 1]);
      var last := s[|s| - 1];
      assert s == s[..|s| - 1] + [last];
      assert Distinct(s) ==> Distinct(s[..|s| - 1]) && last !in s[..|s| - 1];
      if last in init then init else init + [last]
  }

  /** How `Unique` grows by one element: a repeated key keeps its first position. */
  lemma UniqueSnoc<T(!new)>(s: seq<T>, x: T)
    ensures Unique(s + [x]) == if x in s then Unique(s) else Unique(s) + [x]
  {
    assert (s + [x])[..|s|] == s;
  }
}
