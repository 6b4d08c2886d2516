# buzz-feeds merge pipeline, modelled in Dafny

buzz-feeds is a batch job that merges several RSS/Atom sources into a single Atom feed, newest entry first. It runs in these steps:

1. Fetch each named source.
2. Tag every entry's title with the source name (`"<name>: <title>"`).
3. Collect all entries into one list.
4. Sort the list newest first with `sort.Sort`, using a non-strict `Less`.
5. Map each entry onto an output item inside a constant envelope (title, link, run time).
6. Serialise the feed to Atom.
7. Apply two text corrections:
   - delete the first XML declaration;
   - rewrite the first `&&` as `&#38;&#38;`.
8. Unescape HTML entities and write `rss.xml`.

This project models steps 2 to 5 and step 7 as Dafny modules:

- `Feeds` (`feeds.dfy`): the entities (`Item`, `Source`, `OutItem`, `OutFeed`), the feed constants, and `Tag`.
- `Collection` (`collect.dfy`): the tag-and-append loop as the method `Collect`. It is proved to compute `Collected`. The lemmas about `Collected` cover length, contiguity, origin and no duplication.
- `Sorting` (`sorting.dfy`):
  - `Less` and `Swap`;
  - an in-place sort of an `array<Item>`, driven only by `Less` and `Swap`;
  - lemmas about the order.
- `Build` (`build.dfy`): the item-mapping loop as the method `BuildFeed`.
- `Sanitize` (`sanitize.dfy`):
  - `strings.Replace(s, old, new, 1)` as `ReplaceFirst`, with a first-occurrence specification;
  - the two correction steps, `SanitizeSteps` which applies both, and lemmas about them.
- `Pipeline` (`pipeline.dfy`): `Aggregate` chains collect, sort and build. Two lemmas cover the example of two sources with one entry each.

Timestamps are integers: a larger value is a later time. Go's `t.Before(u)` becomes `t < u`. Strings are `seq<char>`; Go compares UTF-8 bytes. Every pattern searched for is ASCII, and in UTF-8 an ASCII byte never occurs inside a multi-byte character. So matching characters finds the same occurrences.

One might expect that sanitising a document that begins with the XML declaration leaves no declaration anywhere in the output. The code does not guarantee that, because it deletes only the first occurrence. The model follows the code:

- `Sanitize.SecondPrologSurvives` shows a document with two declarations that keeps one.
- `Sanitize.LeadingPrologRemoved` proves the claim when the document holds only the leading declaration.

## Model

| member | source | states |
|---|---|---|
| Feeds.Tag | main.go:55 | the tagged title reads as the source name, then `": "`, then the old title; link, description, timestamp and GUID are unchanged |
| Collection.Collect | main.go:42-58 | the nested loop that rewrites each title in place and appends it returns exactly `Collected(sources)`: for each source in visiting order, its tagged entries |
| Collection.CollectedLength | main.go:54-57 | the collected list has as many entries as all sources returned together |
| Collection.CollectedAppend | main.go:43-58 | visiting `a` then `b` collects what `a` collects followed by what `b` collects |
| Collection.CollectedAt | main.go:43-57 | entry `i` of source `s` sits, tagged, at position `Offset(s) + i`, so each source's entries are contiguous and in their own order, and sources follow one another in visiting order |
| Collection.PositionsDistinct | main.go:54-57 | two different (source, entry) pairs land at different positions, so nothing is duplicated |
| Collection.Locate | main.go:54-57 | every position of the collected list comes from some source `s` and entry `i` with `Offset(s) + i` equal to that position, so nothing is invented |
| Collection.CollectedOrigin | main.go:55-56 | every collected entry is the tagged form of the source entry that `Locate` names |
| Collection.EmptySourceContributesNothing | main.go:54-57 | a source that returned no entries adds nothing to the list, wherever it is visited |
| Sorting.Less | main.go:36 | `Items.Less`: `Less(i, j)` (not published before) holds exactly when entry `i` is at least as recent as entry `j`; that it is total, reflexive and true both ways on ties is stated by `LessIsNotStrict`, and that it reads only timestamps by `LessOnlyReadsTimestamps` |
| Sorting.LessOnlyReadsTimestamps | main.go:36 | `Less` depends only on the two entries' timestamps, not on their other fields and not on where they sit |
| Sorting.LessIsNotStrict | main.go:36 | `Less` is reflexive and total, and holds both ways exactly on ties, so it is not the strict order that Go's sort contract assumes |
| Sorting.NewestFirstIffPairwise | main.go:61 | newest-first order on adjacent pairs is the same as newest-first order on all pairs |
| Sorting.Swap | main.go:34 | positions `i` and `j` are exchanged, every other position is unchanged, and the contents are a permutation of the old contents |
| Sorting.SortNewestFirst | main.go:30-36 | after the sort, the array is a permutation (equal multiset) of its old contents, and every adjacent pair is non-increasing in timestamp |
| Build.BuildFeed | main.go:64-77 | the feed has the constant title and link and the given run time. It has one item per sorted entry, in order, and item `k` carries entry `k`'s title, link href, description, publication time (as creation time) and GUID (as id) |
| Build.BuiltFeedNewestFirst | main.go:69-77 | building from a newest-first list gives output items whose creation times are non-increasing |
| Sanitize.IndexFrom | main.go:85 | the least index at or after `i` where the pattern occurs; if there is none, no index at or after `i` matches |
| Sanitize.Index | main.go:85 | a result is the first occurrence, and there is no result exactly when the pattern does not occur |
| Sanitize.ReplaceFirst | main.go:85-87 | if the pattern occurs, the result is the text before its first occurrence, then the replacement, then the text after it; if the pattern does not occur, the text is unchanged |
| Sanitize.FirstMatchExists | main.go:85-87 | a pattern that occurs has a least occurrence |
| Sanitize.StripProlog | main.go:85 | the first XML declaration is cut out, `s[..p] + s[p + 38..]` with `p` its least index; a text without one is unchanged |
| Sanitize.EscapeFirstDoubleAmpersand | main.go:87 | the first `&&` becomes `&#38;&#38;` and everything before and after it is untouched; a text without `&&` is unchanged |
| Sanitize.SanitizeSteps | main.go:85-87 | both steps in order: the text loses the 38 characters of the first XML declaration if it holds one, and gains 8 if an `&&` remains to escape; when the text has no declaration only the `&&` step acts, and when no `&&` remains only the declaration step acts |
| Sanitize.SanitizeFixedPoint | main.go:85-87 | a text with neither the XML declaration nor `&&` passes both steps unchanged |
| Sanitize.MatchBeforeKept | main.go:85-87 | an occurrence that ends before the replaced one is still present, at the same index |
| Sanitize.MatchAfterKept | main.go:85-87 | an occurrence that starts after the replaced one is still present, shifted by the difference in length |
| Sanitize.LaterDoubleAmpersandsSurvive | main.go:87 | a later, non-overlapping `&&` survives the second step, 8 characters further on |
| Sanitize.NoMatchCreated | main.go:85-87 | a replacement cannot create an occurrence of a longer pattern that lacks the replacement's first and last characters |
| Sanitize.LeadingPrologRemoved | main.go:85-87 | a document that begins with the XML declaration and holds no other copy has none left after both steps |
| Sanitize.SecondPrologSurvives | main.go:85 | a document made of two declarations still holds one after both steps: only the first is deleted |
| Pipeline.Aggregate | main.go:42-77 | the entries after the sort are a permutation of the collected entries: as many as the sources returned, newest first, each a tagged entry of some source. The feed is built from them, and its creation times are non-increasing |
| Pipeline.TwoSourceOrder | main.go:43-61 | take one entry from source A and a later one from source B: any newest-first permutation of what is collected is B's tagged entry, then A's |
| Pipeline.TwoSourceFeed | main.go:43-77 | in the same example the merged feed lists `"B: <title>"` with B's time first, then `"A: <title>"` with A's time |

## Left out

- The network fetch (`gofeed.ParseURLWithContext`), the 15-second timeout contexts, `cancel` and the per-source log line (main.go:44-51) are I/O and a foreign library. Each `Source` carries the entries its fetch returned.
- The fail-fast exits through `log.Fatal*` (main.go:49, 81, 92, 95, 98) end the process. The model covers the run in which every fetch succeeds.
- The registry map and the order of iteration over it (main.go:21-28, 43) are not modelled. Go randomises map iteration order, so the sources come as an arbitrary sequence and their URLs are not modelled at all.
- `feed.ToAtom()` (main.go:79) is a foreign serialiser. Its output is the opaque string that `Sanitize` takes.
- `html.UnescapeString` (main.go:94) relies on the standard library's HTML5 entity table, which is not part of this model.
- Opening, truncating, writing and closing `rss.xml` and its permissions (main.go:90-99) are file I/O.
- `time.Now()` (main.go:67) becomes the parameter `updated`. `time.Time` becomes an integer, and time zones are not modelled.
- A nil `PublishedParsed` cannot arise: every `Item` carries a timestamp, which stands in for the non-nil precondition.
- `*gofeed.Item` pointers are modelled as values. The in-place title rewrite updates a copy of the source's entries, so the aliasing between the parser's list and the collected list is not modelled.
- `Items.Len` (main.go:32) has no member of its own. It is the array's `Length`, which the sort reads directly.
- Sorting.SortNewestFirst: this is an insertion sort driven by the same `Less` and `Swap`, not Go's pattern-defeating quicksort. It promises what `sort.Sort` is used for: a permutation, newest first, and nothing about the order of equally recent entries. Go documents its result only for a strict weak order, which this `Less` is not, so the model does not prove that Go's own algorithm gives this result.
