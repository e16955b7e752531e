/**
 * Python's `bisect.bisect_left` and `bisect.bisect_right` on a list of
 * strings, as the live table uses them, against two reference searches:
 * the first position whose item does not sort before the key, and the
 * first whose item sorts after it.
 */
module Bisect {
  import opened StringOrder

  /** No item sorts strictly before an earlier one, in the given direction. */
  predicate Sorted(xs: seq<string>, reversed: bool)
  {
    forall i, j :: 0 <= i < j < |xs| ==> !Before(xs[j], xs[i], reversed)
  }

  /** The first position whose item does not sort before `key`: the leftmost place `key` can go. */
  function LowerBound(xs: seq<string>, key: string, reversed: bool): (r: nat)
    ensures r <= |xs|
    ensures forall j :: 0 <= j < r ==> Before(xs[j], key, reversed)
    ensures r < |xs| ==> !Before(xs[r], key, reversed)
    decreases xs
  {
    if xs == [] || !Before(xs[0], key, reversed) then 0
    else 1 + LowerBound(xs[1..], key, reversed)
  }

  /** The first position whose item sorts after `key`: the rightmost place `key` can go. */
  function UpperBound(xs: seq<string>, key: string, reversed: bool): (r: nat)
    ensures r <= |xs|
    ensures forall j :: 0 <= j < r ==> !Before(key, xs[j], reversed)
    ensures r < |xs| ==> Before(key, xs[r], reversed)
    decreases xs
  {
    if xs == [] || Before(key, xs[0], reversed) then 0
    else 1 + UpperBound(xs[1..], key, reversed)
  }

  /** In a sorted list no item from the lower bound on sorts before the key. */
  lemma LowerBoundSplits(xs: seq<string>, key: string, reversed: bool)
    requires Sorted(xs, reversed)
    ensures forall j :: LowerBound(xs, key, reversed) <= j < |xs| ==> !Before(xs[j], key, reversed)
  {
    var r := LowerBound(xs, key, reversed);
    forall j | r < j < |xs|
      ensures !Before(xs[j], key, reversed)
    {
      NotAfterTransitive(key, xs[r], xs[j], reversed);
    }
  }

  /** In a sorted list every item from the upper bound on sorts after the key. */
  lemma UpperBoundSplits(xs: seq<string>, key: string, reversed: bool)
    requires Sorted(xs, reversed)
    ensures forall j :: UpperBound(xs, key, reversed) <= j < |xs| ==> Before(key, xs[j], reversed)
  {
    var r := UpperBound(xs, key, reversed);
    forall j | r < j < |xs|
      ensures Before(key, xs[j], reversed)
    {
      BeforeThenNotAfter(key, xs[r], xs[j], reversed);
    }
  }

  /** `bisect_left(xs, key)` on an ascending list: halve `[lo, hi)` until it is empty. */
  method BisectLeft(xs: seq<string>, key: string) returns (lo: nat)
    requires Sorted(xs, false)
    ensures lo == LowerBound(xs, key, false)
  {
    LowerBoundSplits(xs, key, false);
    lo := 0;
    var hi := |xs|;
    while lo < hi
      invariant 0 <= lo <= hi <= |xs|
      invariant lo <= LowerBound(xs, key, false) <= hi
      decreases hi - lo
    {
      var mid := (lo + hi) / 2;
      if Below(xs[mid], key) {
        lo := mid + 1;
      } else {
        hi := mid;
      }
    }
  }

  /** `bisect_right(xs, key)` on an ascending list. */
  method BisectRight(xs: seq<string>, key: string) returns (lo: nat)
    requires Sorted(xs, false)
    ensures lo == UpperBound(xs, key, false)
  {
    UpperBoundSplits(xs, key, false);
    lo := 0;
    var hi := |xs|;
    while lo < hi
      invariant 0 <= lo <= hi <= |xs|
      invariant lo <= UpperBound(xs, key, false) <= hi
      decreases hi - lo
    {
      var mid := (lo + hi) / 2;
      if Below(key, xs[mid]) {
        hi := mid;
      } else {
        lo := mid + 1;
      }
    }
  }

  /** `xs[::-1]`. */
  function Reverse(xs: seq<string>): (r: seq<string>)
    ensures |r| == |xs| && forall i :: 0 <= i < |xs| ==> r[i] == xs[|xs| - 1 - i]
    decreases xs
  {
    if xs == [] then [] else Reverse(xs[1..]) + [xs[0]]
  }

  /** A descending list read backwards is ascending. */
  lemma ReverseOfDescending(xs: seq<string>)
    requires Sorted(xs, true)
    ensures Sorted(Reverse(xs), false)
  {
    var r := Reverse(xs);
    forall i, j | 0 <= i < j < |r|
      ensures !Before(r[j], r[i], false)
    {
      assert r[i] == xs[|xs| - 1 - i] && r[j] == xs[|xs| - 1 - j];
    }
  }

  /**
   * Counting `bisect_right` on the reversed list back from the end finds,
   * in the descending list itself, the first item that does not sort
   * before the key.
   */
  lemma DescendingLowerBound(xs: seq<string>, key: string)
    requires Sorted(xs, true)
    ensures |xs| - UpperBound(Reverse(xs), key, false) == LowerBound(xs, key, true)
  {
    var r := Reverse(xs);
    ReverseOfDescending(xs);
    UpperBoundSplits(r, key, false);
    var n := |xs|;
    var u := UpperBound(r, key, false);
    var lb := LowerBound(xs, key, true);
    assert lb < n ==> r[n - 1 - lb] == xs[lb];
    assert 0 < u ==> r[u - 1] == xs[n - u];
  }

  /**
   * Inserting a key at a position after every item it does not sort
   * before, and before every item that does not sort before it, keeps a
   * list sorted.
   */
  lemma SortedInsert(xs: seq<string>, i: nat, key: string, reversed: bool)
    requires Sorted(xs, reversed) && i <= |xs|
    requires forall j :: 0 <= j < i ==> !Before(key, xs[j], reversed)
    requires forall j :: i <= j < |xs| ==> !Before(xs[j], key, reversed)
    ensures Sorted(xs[..i] + [key] + xs[i..], reversed)
  {
    var t := xs[..i] + [key] + xs[i..];
    forall a, b | 0 <= a < b < |t|
      ensures !Before(t[b], t[a], reversed)
    {
      if b < i {
        assert t[a] == xs[a] && t[b] == xs[b];
      } else if b == i {
        assert t[a] == xs[a];
      } else if a == i {
        assert t[b] == xs[b - 1];
      } else if a < i {
        assert t[a] == xs[a] && t[b] == xs[b - 1];
      } else {
        assert t[a] == xs[a - 1] && t[b] == xs[b - 1];
      }
    }
  }

  /** The key can go at the lower bound of a sorted list. */
  lemma SortedInsertLower(xs: seq<string>, key: string, reversed: bool)
    requires Sorted(xs, reversed)
    ensures var i := LowerBound(xs, key, reversed); Sorted(xs[..i] + [key] + xs[i..], reversed)
  {
    var i := LowerBound(xs, key, reversed);
    LowerBoundSplits(xs, key, reversed);
    forall j | 0 <= j < i
      ensures !Before(key, xs[j], reversed)
    {
      BeforeAsymmetric(xs[j], key, reversed);
    }
    SortedInsert(xs, i, key, reversed);
  }
}
