/**
  The newest-first ordering of the collected entries (main.go:30-36, 61). The
  entries sit in an array that is reordered in place, using only the
  comparison `Less` and the exchange `Swap` that Go's sort interface offers.
*/
module Sorting {
  import opened Feeds

  /** Go's `t.Before(u)` on timestamps: `t` is strictly earlier than `u`. */
  predicate Before(t: int, u: int)
  {
    t < u
  }

  /**
    `Items.Less` (main.go:36): entry `i` is "less" when it is not published
    before entry `j`, that is, when `i` is at least as recent as `j`. This is
    non-strict: it also holds for equal timestamps (see LessIsNotStrict).
  */
  predicate Less(a: seq<Item>, i: int, j: int)
    requires 0 <= i < |a| && 0 <= j < |a|
    ensures Less(a, i, j) <==> a[i].published >= a[j].published
  {
    !Before(a[i].published, a[j].published)
  }

  /**
    `Less` looks at the timestamps only: two positions compare the same way in
    any two lists whose entries there carry the same timestamps.
  */
  lemma LessOnlyReadsTimestamps(a: seq<Item>, i: int, j: int, b: seq<Item>, k: int, l: int)
    requires 0 <= i < |a| && 0 <= j < |a| && 0 <= k < |b| && 0 <= l < |b|
    requires a[i].published == b[k].published && a[j].published == b[l].published
    ensures Less(a, i, j) == Less(b, k, l)
  {
  }

  /**
    `Less` is not the strict order Go's sort contract asks for: it is
    reflexive, and two entries with equal timestamps are each "less" than the
    other. So nothing about the relative order of ties can be promised.
  */
  lemma LessIsNotStrict(a: seq<Item>, i: int, j: int)
    requires 0 <= i < |a| && 0 <= j < |a|
    ensures Less(a, i, i)
    ensures Less(a, i, j) || Less(a, j, i)
    ensures (Less(a, i, j) && Less(a, j, i)) <==> a[i].published == a[j].published
  {
  }

  /** Adjacent entries are in newest-first order. */
  predicate NewestFirst(s: seq<Item>)
  {
    forall k :: 0 <= k && k + 1 < |s| ==> s[k].published >= s[k + 1].published
  }

  /** Every earlier entry is at least as recent as every later one. */
  predicate NewestFirstPairwise(s: seq<Item>)
  {
    forall k, l :: 0 <= k < l < |s| ==> s[k].published >= s[l].published
  }

  /** Newest-first order on adjacent pairs is the same as on all pairs. */
  lemma {:induction false} NewestFirstIffPairwise(s: seq<Item>)
    ensures NewestFirst(s) <==> NewestFirstPairwise(s)
  {
    if NewestFirst(s) && |s| > 1 {
      NewestFirstIffPairwise(s[1..]);
      assert NewestFirstPairwise(s[1..]);
      forall k, l | 0 <= k < l < |s|
        ensures s[k].published >= s[l].published
      {
        if k > 0 {
          assert s[k] == s[1..][k - 1] && s[l] == s[1..][l - 1];
        } else if l > 1 {
          assert s[1] == s[1..][0] && s[l] == s[1..][l - 1];
        }
      }
    }
  }

  /**
    `Items.Swap` (main.go:34): exchanges positions `i` and `j` and leaves every
    other position as it was.
  */
  method Swap(a: array<Item>, i: int, j: int)
    requires 0 <= i < a.Length && 0 <= j < a.Length
    modifies a
    ensures a[i] == old(a[j]) && a[j] == old(a[i])
    ensures forall k :: 0 <= k < a.Length && k != i && k != j ==> a[k] == old(a[k])
    ensures multiset(a[..]) == multiset(old(a[..]))
  {
    a[i], a[j] := a[j], a[i];
  }

  /**
    `sort.Sort(Items(items))` (main.go:61): afterwards the array holds the same
    entries, newest first. The reordering is an insertion sort driven by `Less`
    and `Swap` alone; which of several equally recent entries comes first is
    not specified.
  */
  method SortNewestFirst(a: array<Item>)
    modifies a
    ensures NewestFirst(a[..])
    ensures multiset(a[..]) == multiset(old(a[..]))
  {
    var i := 0;
    while i < a.Length
      invariant 0 <= i <= a.Length
      invariant NewestFirstPairwise(a[..i])
      invariant multiset(a[..]) == multiset(old(a[..]))
    {
      var j := i;
      while j > 0 && Less(a[..], j, j - 1)
        invariant 0 <= j <= i
        invariant forall k, l :: 0 <= k < l <= i && k != j && l != j ==> a[k].published >= a[l].published
        invariant forall l :: j < l <= i ==> a[j].published >= a[l].published
        invariant multiset(a[..]) == multiset(old(a[..]))
      {
        Swap(a, j, j - 1);
        j := j - 1;
      }
      i := i + 1;
    }
    assert a[..] == a[..a.Length];
    NewestFirstIffPairwise(a[..]);
  }
}
