/**
  The values the aggregator passes from one stage to the next: the entries
  parsed from a source feed, the registry entry they came from, and the items
  and envelope of the merged output feed.
*/
module Feeds {

  /** Title and home link of the merged feed (main.go:16-19). */
  const TITLE: string := "JBoss Tools Aggregated Feed"
  const LINK: string := "https://tools.jboss.org"

  /** The separator put between a source name and an entry's own title. */
  const SEPARATOR: string := ": "

  /**
    One entry of a fetched feed. `published` is the parsed publication time,
    as an integer (a larger value is a later instant).
  */
  datatype Item = Item(title: string, link: string, description: string, published: int, guid: string)

  /** A registry entry together with the entries its feed returned, in feed order. */
  datatype Source = Source(name: string, items: seq<Item>)

  /** One entry of the merged feed; `link` is the href of its link. */
  datatype OutItem = OutItem(title: string, link: string, description: string, created: int, id: string)

  /** The merged feed: constant title and link, the run time, and its entries. */
  datatype OutFeed = OutFeed(title: string, link: string, updated: int, items: seq<OutItem>)

  /**
    The entry `it` after it has been tagged with the name of the source it came
    from (main.go:55): the title reads as the name, the separator, then the
    old title, and no other field changes.
  */
  function Tag(name: string, it: Item): (r: Item)
    ensures |r.title| == |name| + |SEPARATOR| + |it.title|
    ensures r.title[..|name|] == name
    ensures r.title[|name|..|name| + |SEPARATOR|] == SEPARATOR
    ensures r.title[|name| + |SEPARATOR|..] == it.title
    ensures r.link == it.link && r.description == it.description
    ensures r.published == it.published && r.guid == it.guid
  {
    it.(title := name + SEPARATOR + it.title)
  }
}
