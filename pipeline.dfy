/**
  The data path of `main` (main.go:38-77) from the fetched sources to the
  merged feed: collect and tag, sort newest first, build the output items.
  Serialising the feed and writing the file are left to the caller; the text
  corrections applied in between are the `Sanitize` module.
*/
module Pipeline {
  import opened Feeds
  import opened Collection
  import opened Sorting
  import opened Build

  /**
    Runs the pipeline on the entries the sources returned, at run time
    `updated`. `sorted` is the entry list after `sort.Sort`: the collected
    entries, newest first, each one a tagged entry of some source.
  */
  method Aggregate(sources: seq<Source>, updated: int) returns (sorted: seq<Item>, feed: OutFeed)
    ensures multiset(sorted) == multiset(Collected(sources))
    ensures |sorted| == TotalCount(sources)
    ensures NewestFirst(sorted)
    ensures forall k :: 0 <= k < |sorted| ==> TaggedFrom(sources, sorted[k])
    ensures BuiltFrom(feed, sorted, updated)
    ensures forall k :: 0 <= k && k + 1 < |feed.items| ==> feed.items[k].created >= feed.items[k + 1].created
  {
    var items := Collect(sources);
    var a := new Item[|items|](k requires 0 <= k < |items| => items[k]);
    assert a[..] == items;
    SortNewestFirst(a);
    sorted := a[..];
    CollectedLength(sources);
    assert |sorted| == |multiset(sorted)| == |multiset(items)| == |items|;
    forall k | 0 <= k < |sorted|
      ensures TaggedFrom(sources, sorted[k])
    {
      assert sorted[k] in multiset(items);
      var m :| 0 <= m < |items| && items[m] == sorted[k];
      CollectedOrigin(sources, m);
    }
    feed := BuildFeed(sorted, updated);
    BuiltFeedNewestFirst(feed, sorted, updated);
  }

  /**
    Two sources, each with one entry, the second source's entry the later one:
    whichever newest-first permutation the sort picks, the second source's
    tagged entry comes first and the first source's entry second.
  */
  lemma TwoSourceOrder(nameA: string, a: Item, nameB: string, b: Item, sorted: seq<Item>)
    requires a.published < b.published
    requires multiset(sorted) == multiset(Collected([Source(nameA, [a]), Source(nameB, [b])]))
    requires NewestFirst(sorted)
    ensures sorted == [Tag(nameB, b), Tag(nameA, a)]
  {
    var ss := [Source(nameA, [a]), Source(nameB, [b])];
    assert ss[..1][..0] == [];
    assert ss[..1] == [Source(nameA, [a])];
    var x, y := Tag(nameA, a), Tag(nameB, b);
    assert Tagged(ss[0]) == [x] && Tagged(ss[1]) == [y];
    assert Collected(ss[..1]) == [x];
    assert Collected(ss) == [x, y];
    assert x != y by { assert x.published != y.published; }
    assert |sorted| == |multiset(sorted)| == 2;
    assert sorted[0] in multiset(sorted) && sorted[1] in multiset(sorted);
    assert sorted == [sorted[0], sorted[1]];
    assert sorted[0] == y;
  }

  /**
    The two-source example end to end: the merged feed lists the later entry,
    titled with its source's name, before the earlier one.
  */
  lemma TwoSourceFeed(nameA: string, a: Item, nameB: string, b: Item, sorted: seq<Item>, feed: OutFeed, updated: int)
    requires a.published < b.published
    requires multiset(sorted) == multiset(Collected([Source(nameA, [a]), Source(nameB, [b])]))
    requires NewestFirst(sorted)
    requires BuiltFrom(feed, sorted, updated)
    ensures |feed.items| == 2
    ensures feed.items[0].title == nameB + ": " + b.title && feed.items[0].created == b.published
    ensures feed.items[1].title == nameA + ": " + a.title && feed.items[1].created == a.published
  {
    TwoSourceOrder(nameA, a, nameB, b, sorted);
  }
}
