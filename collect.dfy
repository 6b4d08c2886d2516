/**
  The tag-and-collect stage (main.go:43-58): every source is visited in turn,
  each of its entries is tagged with the source's name and appended to one
  list. The feed fetch itself is replaced by the `items` of each `Source`.
*/
module Collection {
  import opened Feeds

  /** The entries of one source after tagging, in the source's own order. */
  function Tagged(src: Source): seq<Item>
  {
    seq(|src.items|, i requires 0 <= i < |src.items| => Tag(src.name, src.items[i]))
  }

  /** What the collection loop has appended after visiting all of `sources`. */
  function Collected(sources: seq<Source>): seq<Item>
  {
    if sources == [] then []
    else Collected(sources[..|sources| - 1]) + Tagged(sources[|sources| - 1])
  }

  /** The number of entries all of `sources` returned. */
  function TotalCount(sources: seq<Source>): nat
  {
    if sources == [] then 0
    else TotalCount(sources[..|sources| - 1]) + |sources[|sources| - 1].items|
  }

  /** Where the entries of `sources[s]` start in the collected list. */
  function Offset(sources: seq<Source>, s: nat): nat
    requires s <= |sources|
  {
    TotalCount(sources[..s])
  }

  /** The collected list holds exactly as many entries as the sources returned. */
  lemma {:induction false} CollectedLength(sources: seq<Source>)
    ensures |Collected(sources)| == TotalCount(sources)
  {
    if sources != [] {
      CollectedLength(sources[..|sources| - 1]);
    }
  }

  /** Visiting `a` and then `b` collects what `a` collects followed by what `b` collects. */
  lemma {:induction false} CollectedAppend(a: seq<Source>, b: seq<Source>)
    ensures Collected(a + b) == Collected(a) + Collected(b)
  {
    if b == [] {
      assert a + b == a;
    } else {
      var n := |b| - 1;
      assert (a + b)[..|a + b| - 1] == a + b[..n];
      assert (a + b)[|a + b| - 1] == b[n];
      CollectedAppend(a, b[..n]);
    }
  }

  /** The offset of the next source is this one's offset plus its entry count. */
  lemma OffsetStep(sources: seq<Source>, s: nat)
    requires s < |sources|
    ensures Offset(sources, s + 1) == Offset(sources, s) + |sources[s].items|
  {
    assert sources[..s + 1][..s] == sources[..s];
  }

  /** Offsets never decrease: a later source's entries start after an earlier one's end. */
  lemma {:induction false} OffsetMonotone(sources: seq<Source>, s: nat, t: nat)
    requires s < t <= |sources|
    ensures Offset(sources, s) + |sources[s].items| <= Offset(sources, t)
    decreases t - s
  {
    OffsetStep(sources, s);
    if s + 1 < t {
      OffsetMonotone(sources, s + 1, t);
    }
  }

  /**
    The `i`-th entry of source `s` sits, tagged, at position
    `Offset(sources, s) + i` of the collected list: each source's entries appear
    contiguously, in their own order, in the order the sources are visited.
  */
  lemma CollectedAt(sources: seq<Source>, s: nat, i: nat)
    requires s < |sources| && i < |sources[s].items|
    ensures Offset(sources, s) + i < |Collected(sources)|
    ensures Collected(sources)[Offset(sources, s) + i] == Tag(sources[s].name, sources[s].items[i])
  {
    var pre, post := sources[..s], sources[s + 1..];
    var upTo := pre + [sources[s]];
    assert sources == upTo + post;
    assert upTo[..|upTo| - 1] == pre;
    CollectedAppend(upTo, post);
    CollectedLength(pre);
    CollectedLength(sources);
    OffsetMonotone(sources, s, |sources|);
    assert sources[..|sources|] == sources;
  }

  /** Distinct (source, entry) pairs land at distinct positions: nothing is duplicated. */
  lemma PositionsDistinct(sources: seq<Source>, s: nat, i: nat, t: nat, j: nat)
    requires s < |sources| && i < |sources[s].items|
    requires t < |sources| && j < |sources[t].items|
    requires s != t || i != j
    ensures Offset(sources, s) + i != Offset(sources, t) + j
  {
    if s < t {
      OffsetMonotone(sources, s, t);
    } else if t < s {
      OffsetMonotone(sources, t, s);
    }
  }

  /**
    The source and entry index that position `k` of the collected list came
    from: every position has an origin, so nothing in the list is invented.
  */
  function Locate(sources: seq<Source>, k: nat): (r: (nat, nat))
    requires k < TotalCount(sources)
    ensures r.0 < |sources| && r.1 < |sources[r.0].items|
    ensures Offset(sources, r.0) + r.1 == k
    decreases |sources|
  {
    var n := |sources| - 1;
    if k < TotalCount(sources[..n]) then
      var r := Locate(sources[..n], k);
      assert sources[..n][..r.0] == sources[..r.0];
      r
    else
      (n, k - TotalCount(sources[..n]))
  }

  /** `it` is the tagged form of some entry of some source. */
  ghost predicate TaggedFrom(sources: seq<Source>, it: Item)
  {
    exists s, i :: 0 <= s < |sources| && 0 <= i < |sources[s].items| &&
      it == Tag(sources[s].name, sources[s].items[i])
  }

  /**
    Every collected entry is a tagged entry of one of the sources; in
    particular its title is that source's name, ": ", and an original title.
  */
  lemma CollectedOrigin(sources: seq<Source>, k: nat)
    requires k < TotalCount(sources)
    ensures k < |Collected(sources)|
    ensures var (s, i) := Locate(sources, k);
      Collected(sources)[k] == Tag(sources[s].name, sources[s].items[i])
  {
    CollectedLength(sources);
    var (s, i) := Locate(sources, k);
    CollectedAt(sources, s, i);
  }

  /** A source that returned no entries contributes nothing, wherever it is visited. */
  lemma EmptySourceContributesNothing(pre: seq<Source>, name: string, post: seq<Source>)
    ensures Collected(pre + [Source(name, [])] + post) == Collected(pre + post)
  {
    CollectedAppend(pre + [Source(name, [])], post);
    CollectedAppend(pre, post);
    assert (pre + [Source(name, [])])[..|pre|] == pre;
  }

  /**
    The collection loop of main.go:43-58: for each source in turn, each entry's
    title is rewritten in place to carry the source name, and the entry is
    appended to `items`.
  */
  method Collect(sources: seq<Source>) returns (items: seq<Item>)
    ensures items == Collected(sources)
  {
    items := [];
    var s := 0;
    while s < |sources|
      invariant 0 <= s <= |sources|
      invariant items == Collected(sources[..s])
    {
      var name := sources[s].name;
      var fetched := sources[s].items;
      ghost var before := items;
      var i := 0;
      while i < |fetched|
        invariant 0 <= i <= |fetched| == |sources[s].items|
        invariant forall k :: 0 <= k < i ==> fetched[k] == Tag(name, sources[s].items[k])
        invariant forall k :: i <= k < |fetched| ==> fetched[k] == sources[s].items[k]
        invariant items == before + fetched[..i]
      {
        fetched := fetched[i := fetched[i].(title := name + SEPARATOR + fetched[i].title)];
        items := items + [fetched[i]];
        i := i + 1;
      }
      assert fetched == Tagged(sources[s]);
      assert fetched[..i] == fetched;
      assert sources[..s + 1][..s] == sources[..s];
      s := s + 1;
    }
    assert sources[..s] == sources;
  }
}
