/**
  Building the merged feed (main.go:63-77): a constant envelope around one
  output item per sorted entry, in the same order.
*/
module Build {
  import opened Feeds
  import opened Sorting

  /**
    `o` carries the fields of `it` as main.go:70-76 copies them: title, link
    href, description, publication time as creation time, GUID as id.
  */
  predicate Carries(o: OutItem, it: Item)
  {
    o.title == it.title && o.link == it.link && o.description == it.description &&
    o.created == it.published && o.id == it.guid
  }

  /**
    `feed` is the merged feed built from `items` at run time `updated`: the
    constant title and link, and item `k` carrying entry `k`, nothing more.
  */
  predicate BuiltFrom(feed: OutFeed, items: seq<Item>, updated: int)
  {
    feed.title == TITLE && feed.link == LINK && feed.updated == updated &&
    |feed.items| == |items| &&
    forall k :: 0 <= k < |items| ==> Carries(feed.items[k], items[k])
  }

  /**
    The envelope literal and the loop of main.go:64-77. `updated` stands for
    `time.Now()`, which the model takes as a parameter.
  */
  method BuildFeed(items: seq<Item>, updated: int) returns (feed: OutFeed)
    ensures BuiltFrom(feed, items, updated)
  {
    feed := OutFeed(TITLE, LINK, updated, []);
    var i := 0;
    while i < |items|
      invariant 0 <= i <= |items|
      invariant feed.title == TITLE && feed.link == LINK && feed.updated == updated
      invariant |feed.items| == i
      invariant forall k :: 0 <= k < i ==> Carries(feed.items[k], items[k])
    {
      var it := items[i];
      feed := feed.(items := feed.items + [OutItem(it.title, it.link, it.description, it.published, it.guid)]);
      i := i + 1;
    }
  }

  /** Building keeps the order: a newest-first entry list gives newest-first output items. */
  lemma BuiltFeedNewestFirst(feed: OutFeed, items: seq<Item>, updated: int)
    requires BuiltFrom(feed, items, updated) && NewestFirst(items)
    ensures forall k :: 0 <= k && k + 1 < |feed.items| ==> feed.items[k].created >= feed.items[k + 1].created
  {
  }
}
